/** The autosaver that keeps one file per document (src/autosave_folder.cpp):
    a dirty flag per document, cleared before the document is written. */
module AutosaveFolderModel {
  import opened Common

  datatype Document = Document(title: string, content: string)
  type Buffer = map<Doc, Document>
  type Flags = map<Doc, bool>
  type Disk = map<string, string>

  /** The part of a title after its last slash. */
  function FileName(title: string): string {
    if title == [] then []
    else if '/' in title then FileName(title[1..])
    else title
  }

  function PathOf(folder: string, d: Document): string {
    folder + "/" + FileName(d.title)
  }

  /** A document's file lies in the folder itself: its name is the title, or what
      comes after the last slash of it. */
  lemma PathIs(folder: string, d: Document) returns (prefix: string, name: string)
    ensures PathOf(folder, d) == folder + "/" + name && '/' !in name
    ensures d.title == name || d.title == prefix + "/" + name
  {
    prefix, name := FileNameIs(d.title);
  }

  lemma {:induction false} FileNameIs(title: string) returns (prefix: string, name: string)
    ensures name == FileName(title) && '/' !in name
    ensures title == name || title == prefix + "/" + name
    decreases |title|
  {
    if '/' in title {
      assert title == [title[0]] + title[1..];
      prefix, name := FileNameIs(title[1..]);
      if title[1..] == name {
        assert title[0] == '/';
        prefix := "";
        assert title == "" + "/" + name;
      } else {
        prefix := [title[0]] + prefix;
      }
    } else {
      prefix, name := "", title;
    }
  }

  /** There is only one such name. */
  lemma {:induction false} NameIsUnique(title: string, prefix: string, name: string)
    requires '/' !in name && (title == name || title == prefix + "/" + name)
    ensures name == FileName(title)
    decreases |title|
  {
    if title != name {
      assert title[|prefix|] == '/';
      if prefix == "" {
        assert title[1..] == name;
        NameIsUnique(name, "", name);
      } else {
        assert title[1..] == prefix[1..] + "/" + name;
        NameIsUnique(title[1..], prefix[1..], name);
      }
    }
  }

  /** The files after the given documents have been written one by one. */
  function Written(docs: seq<Doc>, buffer: Buffer, folder: string, disk: Disk): Disk
    requires forall i :: 0 <= i < |docs| ==> docs[i] in buffer
  {
    if docs == [] then disk
    else
      var last := buffer[docs[|docs| - 1]];
      Written(docs[..|docs| - 1], buffer, folder, disk)[PathOf(folder, last) := last.content]
  }

  lemma WrittenNone(buffer: Buffer, folder: string, disk: Disk)
    ensures Written([], buffer, folder, disk) == disk
  {
  }

  lemma WrittenOneMore(docs: seq<Doc>, d: Doc, buffer: Buffer, folder: string, disk: Disk)
    requires d in buffer && forall i :: 0 <= i < |docs| ==> docs[i] in buffer
    ensures Written(docs + [d], buffer, folder, disk) ==
      Written(docs, buffer, folder, disk)[PathOf(folder, buffer[d]) := buffer[d].content]
  {
    assert (docs + [d])[..|docs|] == docs;
  }

  /** Position `i` holds the last of the documents that is written to `path`. */
  ghost predicate LastWriter(docs: seq<Doc>, buffer: Buffer, folder: string, path: string, i: nat)
    requires forall i :: 0 <= i < |docs| ==> docs[i] in buffer
  {
    && i < |docs| && PathOf(folder, buffer[docs[i]]) == path
    && forall j :: i < j < |docs| ==> PathOf(folder, buffer[docs[j]]) != path
  }

  /** Per path the last writer wins. */
  lemma {:induction false} LastWriterWins(docs: seq<Doc>, buffer: Buffer, folder: string, disk: Disk,
                                          path: string, i: nat)
    requires forall j :: 0 <= j < |docs| ==> docs[j] in buffer
    requires LastWriter(docs, buffer, folder, path, i)
    ensures var after := Written(docs, buffer, folder, disk); path in after && after[path] == buffer[docs[i]].content
    decreases |docs|
  {
    hide PathOf;
    var init := docs[..|docs| - 1];
    if i < |init| {
      assert LastWriter(init, buffer, folder, path, i);
      LastWriterWins(init, buffer, folder, disk, path, i);
    }
  }

  /** A path nobody writes to keeps its file. */
  lemma {:induction false} UnwrittenKeepsFile(docs: seq<Doc>, buffer: Buffer, folder: string, disk: Disk, path: string)
    requires forall j :: 0 <= j < |docs| ==> docs[j] in buffer
    requires forall j :: 0 <= j < |docs| ==> PathOf(folder, buffer[docs[j]]) != path
    ensures var after := Written(docs, buffer, folder, disk);
      (path in after <==> path in disk) && (path in disk ==> after[path] == disk[path])
    decreases |docs|
  {
    hide PathOf;
    if docs != [] {
      UnwrittenKeepsFile(docs[..|docs| - 1], buffer, folder, disk, path);
    }
  }

  lemma {:induction false} WrittenInTwo(docs: seq<Doc>, more: seq<Doc>, buffer: Buffer, folder: string, disk: Disk)
    requires forall j :: 0 <= j < |docs| ==> docs[j] in buffer
    requires forall j :: 0 <= j < |more| ==> more[j] in buffer
    ensures forall j :: 0 <= j < |docs + more| ==> (docs + more)[j] in buffer
    ensures Written(docs + more, buffer, folder, disk) ==
      Written(more, buffer, folder, Written(docs, buffer, folder, disk))
    decreases |more|
  {
    hide PathOf;
    if more == [] {
      assert docs + more == docs;
    } else {
      var init := more[..|more| - 1];
      assert (docs + more)[..|docs + more| - 1] == docs + init;
      WrittenInTwo(docs, init, buffer, folder, disk);
    }
  }

  ghost predicate DistinctPaths(buffer: Buffer, folder: string) {
    forall d, e :: d in buffer && e in buffer && d != e ==> PathOf(folder, buffer[d]) != PathOf(folder, buffer[e])
  }

  /** A flag for each tracked document, the server's documents, the files, and
      the documents whose last save attempt failed. */
  datatype State = State(flags: Flags, buffer: Buffer, disk: Disk, failed: set<Doc>) {
    /** The tracked documents are the server's. */
    ghost predicate Tracked() { flags.Keys == buffer.Keys }
  }

  ghost function Dirty(flags: Flags): set<Doc> {
    set d | d in flags && flags[d]
  }

  ghost function DirtyUnopenable(folder: string, openable: string -> bool, s: State): set<Doc>
    requires s.Tracked()
  {
    set d | d in s.flags && s.flags[d] && !openable(PathOf(folder, s.buffer[d]))
  }

  lemma DirtyUnopenableIs(folder: string, openable: string -> bool, s: State)
    requires s.Tracked()
    ensures DirtyUnopenable(folder, openable, s) ==
      set d | d in s.flags && s.flags[d] && !openable(PathOf(folder, s.buffer[d]))
  {
  }

  lemma {:induction false} LeastExists(s: set<Doc>) returns (least: Doc)
    requires s != {}
    ensures least in s && forall e :: e in s ==> least <= e
    decreases |s|
  {
    least :| least in s;
    if s != {least} {
      var other := LeastExists(s - {least});
      assert forall e :: e in s ==> e == least || e in s - {least};
      if other < least { least := other; }
    }
  }

  ghost predicate FileHolds(disk: Disk, folder: string, d: Document) {
    PathOf(folder, d) in disk && disk[PathOf(folder, d)] == d.content
  }

  /** Every clean document outside `except` has its content in its file. */
  ghost predicate CoherentBut(folder: string, s: State, except: set<Doc>) {
    forall d :: d in s.buffer && d !in except && (d in s.flags ==> !s.flags[d]) ==>
      FileHolds(s.disk, folder, s.buffer[d])
  }

  /** What a clean flag is worth: the file holds the current content, unless the
      last attempt to write it failed. */
  ghost predicate CoherentState(folder: string, s: State) {
    CoherentBut(folder, s, s.failed)
  }

  lemma CoherentIs(folder: string, s: State)
    ensures CoherentState(folder, s) <==>
      forall d :: d in s.buffer && d !in s.failed && (d in s.flags ==> !s.flags[d]) ==>
        var path := PathOf(folder, s.buffer[d]);
        path in s.disk && s.disk[path] == s.buffer[d].content
  {
  }

  /** What a save has done once it has dealt with the documents in `seen`: the
      dirty ones among them are written in the order of the map and cleaned. */
  ghost predicate Walked(folder: string, openable: string -> bool, s: State,
                         seen: set<Doc>, written: seq<Doc>, t: State)
    requires s.Tracked()
  {
    && t.flags.Keys == s.flags.Keys && t.buffer == s.buffer && seen <= s.flags.Keys
    && (forall d, e :: d in seen && e in s.flags && e !in seen ==> d < e)
    && (forall d :: d in s.flags ==> t.flags[d] == (d !in seen && s.flags[d]))
    && (forall i :: 0 <= i < |written| ==> written[i] in s.buffer && openable(PathOf(folder, s.buffer[written[i]])))
    && (forall i, j :: 0 <= i < j < |written| ==> written[i] < written[j])
    && (forall d :: d in written <==> d in seen && s.flags[d])
    && t.disk == Written(written, s.buffer, folder, s.disk)
    && t.failed == s.failed - (set d | d in written)
  }

  lemma WalkPastClean(folder: string, openable: string -> bool, s: State,
                      seen: set<Doc>, written: seq<Doc>, t: State, d: Doc)
    requires s.Tracked() && Walked(folder, openable, s, seen, written, t)
    requires d in s.flags && !s.flags[d] && d !in seen && forall e :: e in s.flags && e !in seen ==> d <= e
    ensures Walked(folder, openable, s, seen + {d}, written, t)
  {
  }

  lemma WalkAndWrite(folder: string, openable: string -> bool, s: State,
                     seen: set<Doc>, written: seq<Doc>, t: State, d: Doc)
    requires s.Tracked() && Walked(folder, openable, s, seen, written, t)
    requires d in s.flags && s.flags[d] && d !in seen && forall e :: e in s.flags && e !in seen ==> d <= e
    requires openable(PathOf(folder, s.buffer[d]))
    ensures var disk := t.disk[PathOf(folder, s.buffer[d]) := s.buffer[d].content];
      Walked(folder, openable, s, seen + {d}, written + [d],
             State(t.flags[d := false], t.buffer, disk, t.failed - {d}))
  {
    hide PathOf;
    WrittenOneMore(written, d, s.buffer, folder, s.disk);
    hide Written;
  }

  /** The exact effect of one save. The dirty documents are written in the order
      of the map, the last one winning per path, up to the first that cannot be
      opened. Those written are cleaned; so is the one that cannot be opened,
      `bad`, without having been written; all later ones keep their flag; and no
      other file changes. */
  ghost predicate Effect(folder: string, openable: string -> bool, s: State,
                         error: bool, bad: Doc, written: seq<Doc>, t: State)
    requires s.Tracked()
  {
    && t.flags.Keys == s.flags.Keys && t.buffer == s.buffer
    && (error ==> bad in s.flags && s.flags[bad] && !openable(PathOf(folder, s.buffer[bad])))
    && (forall i :: 0 <= i < |written| ==> written[i] in s.buffer && openable(PathOf(folder, s.buffer[written[i]])))
    && (forall i, j :: 0 <= i < j < |written| ==> written[i] < written[j])
    && (forall d :: d in written <==> d in s.flags && s.flags[d] && (error ==> d < bad))
    && (forall d :: d in s.flags ==> t.flags[d] == (error && d > bad && s.flags[d]))
    && t.disk == Written(written, s.buffer, folder, s.disk)
    && t.failed == s.failed - (set d | d in written) + (if error then {bad} else {})
  }

  lemma WalkStarts(folder: string, openable: string -> bool, s: State)
    requires s.Tracked()
    ensures Walked(folder, openable, s, {}, [], s)
  {
  }

  lemma WalkEnds(folder: string, openable: string -> bool, s: State, written: seq<Doc>, t: State)
    requires s.Tracked() && Walked(folder, openable, s, s.flags.Keys, written, t)
    ensures Effect(folder, openable, s, false, 0, written, t)
  {
  }

  lemma WalkStops(folder: string, openable: string -> bool, s: State,
                  seen: set<Doc>, written: seq<Doc>, t: State, d: Doc)
    requires s.Tracked() && Walked(folder, openable, s, seen, written, t)
    requires d in s.flags && s.flags[d] && d !in seen && forall e :: e in s.flags && e !in seen ==> d <= e
    requires !openable(PathOf(folder, s.buffer[d]))
    ensures Effect(folder, openable, s, true, d, written, State(t.flags[d := false], t.buffer, t.disk, t.failed + {d}))
  {
    hide PathOf, Written;
  }

  /** The document a save stops at: the first of the dirty ones in the order of
      the map that cannot be opened. */
  ghost predicate StopsAt(folder: string, openable: string -> bool, s: State, d: Doc)
    requires s.Tracked()
  {
    && d in DirtyUnopenable(folder, openable, s)
    && forall e :: e in DirtyUnopenable(folder, openable, s) ==> d <= e
  }

  /** A document a save writes: a dirty one before the first that cannot be opened. */
  ghost predicate ToWrite(folder: string, openable: string -> bool, s: State, d: Doc)
    requires s.Tracked()
  {
    d in Dirty(s.flags) && forall e :: e in DirtyUnopenable(folder, openable, s) ==> d < e
  }

  /** A save fails exactly when a dirty document cannot be opened, at the first,
      and writes the dirty documents before it. */
  lemma EffectFailsExactly(folder: string, openable: string -> bool, s: State,
                           error: bool, bad: Doc, written: seq<Doc>, t: State)
    requires s.Tracked() && Effect(folder, openable, s, error, bad, written, t)
    ensures error <==> DirtyUnopenable(folder, openable, s) != {}
    ensures forall d :: StopsAt(folder, openable, s, d) <==> error && d == bad
    ensures forall d :: d in written <==> ToWrite(folder, openable, s, d)
  {
    hide PathOf, Written;
    forall d | d in DirtyUnopenable(folder, openable, s) ensures error && bad <= d {
      assert forall i :: 0 <= i < |written| ==> written[i] != d;
    }
    assert error ==> bad in DirtyUnopenable(folder, openable, s);
  }

  /** What a save does, in plain terms: to the flags and the failed documents. */
  lemma EffectIs(folder: string, openable: string -> bool, s: State,
                 error: bool, bad: Doc, written: seq<Doc>, t: State)
    requires s.Tracked() && Effect(folder, openable, s, error, bad, written, t)
    ensures t.buffer == s.buffer && t.flags.Keys == s.flags.Keys
    ensures error <==> exists d :: d in s.flags && s.flags[d] && !openable(PathOf(folder, s.buffer[d]))
    ensures error ==> bad in s.flags && s.flags[bad] && !openable(PathOf(folder, s.buffer[bad]))
    ensures forall d :: d in written <==> d in s.flags && s.flags[d] && (error ==> d < bad)
    ensures forall i, j :: 0 <= i < j < |written| ==> written[i] < written[j]
    ensures forall d :: d in s.flags ==> (t.flags[d] <==> error && d > bad && s.flags[d])
    ensures forall d :: d in written ==> openable(PathOf(folder, s.buffer[d]))
    ensures t.failed == s.failed - (set d | d in written) + (if error then {bad} else {})
  {
    hide PathOf, Written;
    EffectFailsExactly(folder, openable, s, error, bad, written, t);
    assert error <==> exists d :: d in DirtyUnopenable(folder, openable, s);
  }

  /** And to the files: each document goes to its base name in the folder. */
  lemma FilesAre(folder: string, openable: string -> bool, s: State,
                 error: bool, bad: Doc, written: seq<Doc>, t: State)
    requires s.Tracked() && Effect(folder, openable, s, error, bad, written, t)
    ensures forall d :: d in written ==> d in s.buffer
    ensures forall d :: d in written ==> var title := s.buffer[d].title;
      exists prefix, name :: '/' !in name && (title == name || title == prefix + "/" + name) &&
        PathOf(folder, s.buffer[d]) == folder + "/" + name
    ensures forall i | 0 <= i < |written| &&
        (forall j :: i < j < |written| ==>
           PathOf(folder, s.buffer[written[j]]) != PathOf(folder, s.buffer[written[i]])) ::
      var path := PathOf(folder, s.buffer[written[i]]);
      path in t.disk && t.disk[path] == s.buffer[written[i]].content
    ensures forall path | (forall d :: d in written ==> PathOf(folder, s.buffer[d]) != path) ::
      (path in t.disk <==> path in s.disk) && (path in s.disk ==> t.disk[path] == s.disk[path])
  {
    hide PathOf, Written, FileName;
    WrittenFiles(folder, openable, s, error, bad, written, t);
    forall d | d in written
      ensures var title := s.buffer[d].title;
        exists prefix, name :: '/' !in name && (title == name || title == prefix + "/" + name) &&
          PathOf(folder, s.buffer[d]) == folder + "/" + name
    {
      var prefix, name := PathIs(folder, s.buffer[d]);
    }
    hide Effect;
    forall i | 0 <= i < |written| &&
        (forall j :: i < j < |written| ==>
           PathOf(folder, s.buffer[written[j]]) != PathOf(folder, s.buffer[written[i]]))
      ensures var path := PathOf(folder, s.buffer[written[i]]);
        path in t.disk && t.disk[path] == s.buffer[written[i]].content
    {
      LastWriterWins(written, s.buffer, folder, s.disk, PathOf(folder, s.buffer[written[i]]), i);
    }
    forall path | (forall d :: d in written ==> PathOf(folder, s.buffer[d]) != path)
      ensures (path in t.disk <==> path in s.disk) && (path in s.disk ==> t.disk[path] == s.disk[path])
    {
      UnwrittenKeepsFile(written, s.buffer, folder, s.disk, path);
    }
  }

  lemma WrittenFiles(folder: string, openable: string -> bool, s: State,
                     error: bool, bad: Doc, written: seq<Doc>, t: State)
    requires s.Tracked() && Effect(folder, openable, s, error, bad, written, t)
    ensures forall i :: 0 <= i < |written| ==> written[i] in s.buffer
    ensures t.disk == Written(written, s.buffer, folder, s.disk)
  {
  }

  /** Nothing about a save is left open. */
  lemma EffectIsDetermined(folder: string, openable: string -> bool, s: State,
                           error: bool, bad: Doc, written: seq<Doc>, t: State,
                           error': bool, bad': Doc, written': seq<Doc>, t': State)
    requires s.Tracked() && Effect(folder, openable, s, error, bad, written, t)
    requires Effect(folder, openable, s, error', bad', written', t')
    ensures error == error' && (error ==> bad == bad') && written == written' && t == t'
  {
    hide PathOf, Written, StopsAt, ToWrite;
    EffectFailsExactly(folder, openable, s, error, bad, written, t);
    EffectFailsExactly(folder, openable, s, error', bad', written', t');
    assert error ==> StopsAt(folder, openable, s, bad);
    SortedIsUnique(written, written');
    assert t.flags == t'.flags;
  }

  lemma {:induction false} SortedIsUnique(a: seq<Doc>, b: seq<Doc>)
    requires forall i, j :: 0 <= i < j < |a| ==> a[i] < a[j]
    requires forall i, j :: 0 <= i < j < |b| ==> b[i] < b[j]
    requires forall d :: d in a <==> d in b
    ensures a == b
    decreases |a|
  {
    assert (a != [] ==> a[0] in a) && (b != [] ==> b[0] in b);
    if a != [] {
      assert forall d :: d in a <==> d == a[0] || d in a[1..];
      assert forall d :: d in b <==> d == b[0] || d in b[1..];
      SortedIsUnique(a[1..], b[1..]);
    }
  }

  /** The last document that a save writes to `path`. */
  ghost predicate LastToWrite(folder: string, openable: string -> bool, s: State, path: string, e: Doc)
    requires s.Tracked()
  {
    && e in s.buffer && ToWrite(folder, openable, s, e) && PathOf(folder, s.buffer[e]) == path
    && forall f: Doc :: ToWrite(folder, openable, s, f) && PathOf(folder, s.buffer[f]) == path ==> f <= e
  }

  lemma {:induction false} LastWriterExists(docs: seq<Doc>, buffer: Buffer, folder: string, path: string, i: nat)
      returns (last: nat)
    requires forall j :: 0 <= j < |docs| ==> docs[j] in buffer
    requires i < |docs| && PathOf(folder, buffer[docs[i]]) == path
    ensures LastWriter(docs, buffer, folder, path, last)
    decreases |docs| - i
  {
    hide PathOf;
    last := i;
    if j :| i < j < |docs| && PathOf(folder, buffer[docs[j]]) == path {
      last := LastWriterExists(docs, buffer, folder, path, j);
    }
  }

  /** The last document that is written to the file of `d`, if there is one, has
      the content of `d`. */
  ghost predicate FileSafe(folder: string, openable: string -> bool, s: State, d: Doc)
    requires s.Tracked() && d in s.buffer
  {
    forall e :: LastToWrite(folder, openable, s, PathOf(folder, s.buffer[d]), e) ==>
      s.buffer[e].content == s.buffer[d].content
  }

  /** What a save makes of the file of a document that it writes or that was
      current before. */
  lemma FileAfterSave(folder: string, openable: string -> bool, s: State,
                      error: bool, bad: Doc, written: seq<Doc>, t: State, d: Doc)
    requires s.Tracked() && Effect(folder, openable, s, error, bad, written, t) && d in s.buffer
    requires ToWrite(folder, openable, s, d) || FileHolds(s.disk, folder, s.buffer[d])
    ensures FileHolds(t.disk, folder, s.buffer[d]) <==> FileSafe(folder, openable, s, d)
  {
    hide PathOf, Written, ToWrite;
    var path := PathOf(folder, s.buffer[d]);
    EffectFailsExactly(folder, openable, s, error, bad, written, t);
    if i: nat :| i < |written| && PathOf(folder, s.buffer[written[i]]) == path {
      var last := LastWriterExists(written, s.buffer, folder, path, i);
      LastWriterWins(written, s.buffer, folder, s.disk, path, last);
      assert written[last] in written;
      assert LastToWrite(folder, openable, s, path, written[last]);
    } else {
      UnwrittenKeepsFile(written, s.buffer, folder, s.disk, path);
      assert forall e :: e in written ==> PathOf(folder, s.buffer[e]) != path;
    }
  }

  /** No document that is clean after a save has its file overwritten with the
      different content of another, but for the clean ones in `except`. */
  ghost predicate NoneOverwritten(folder: string, openable: string -> bool, s: State, except: set<Doc>)
    requires s.Tracked()
  {
    forall d :: d in s.buffer && (ToWrite(folder, openable, s, d) || (d !in except && !s.flags[d])) ==>
      FileSafe(folder, openable, s, d)
  }

  lemma DistinctPathsSuffice(folder: string, openable: string -> bool, s: State, except: set<Doc>)
    requires s.Tracked() && DistinctPaths(s.buffer, folder)
    ensures NoneOverwritten(folder, openable, s, except)
  {
    hide PathOf;
  }

  /** Exactly when a save keeps clean documents current, as far as they were and
      but for the one it stops at: when it overwrites none of them. */
  lemma CoherenceKeptExactly(folder: string, openable: string -> bool, s: State,
                             error: bool, bad: Doc, written: seq<Doc>, t: State, except: set<Doc>)
    requires s.Tracked() && Effect(folder, openable, s, error, bad, written, t)
    requires CoherentBut(folder, s, except)
    ensures CoherentBut(folder, t, except - (set d | d in written) + (if error then {bad} else {})) <==>
      NoneOverwritten(folder, openable, s, except)
  {
    hide PathOf, Written, FileHolds, ToWrite, FileSafe;
    EffectFailsExactly(folder, openable, s, error, bad, written, t);
    forall d | d in s.buffer && (ToWrite(folder, openable, s, d) || FileHolds(s.disk, folder, s.buffer[d]))
      ensures FileHolds(t.disk, folder, s.buffer[d]) <==> FileSafe(folder, openable, s, d)
    {
      FileAfterSave(folder, openable, s, error, bad, written, t, d);
    }
  }

  /** A save keeps coherence while no two documents share a file. */
  lemma EffectKeepsCoherence(folder: string, openable: string -> bool, s: State,
                             error: bool, bad: Doc, written: seq<Doc>, t: State)
    requires s.Tracked() && Effect(folder, openable, s, error, bad, written, t)
    requires CoherentState(folder, s) && DistinctPaths(s.buffer, folder)
    ensures CoherentState(folder, t)
  {
    hide PathOf, Written, NoneOverwritten, CoherentBut;
    DistinctPathsSuffice(folder, openable, s, s.failed);
    CoherenceKeptExactly(folder, openable, s, error, bad, written, t, s.failed);
  }

  /** Exactly when a save keeps the plain promise, that a clean document's file is
      current: when it overwrites none of them, and does not fail, or stops at a
      document that was dirty without need, its file holding its content. */
  lemma CleanStaysCurrentExactly(folder: string, openable: string -> bool, s: State,
                                 error: bool, bad: Doc, written: seq<Doc>, t: State)
    requires s.Tracked() && Effect(folder, openable, s, error, bad, written, t) && CoherentBut(folder, s, {})
    ensures CoherentBut(folder, t, {}) <==>
      NoneOverwritten(folder, openable, s, {}) && (error ==> FileHolds(s.disk, folder, s.buffer[bad]))
  {
    hide PathOf, Written, CoherentBut, NoneOverwritten;
    CoherenceKeptExactly(folder, openable, s, error, bad, written, t, {});
    var except := {} - (set d | d in written) + (if error then {bad} else {});
    assert except == if error then {bad} else {};
    if error {
      UnwrittenKeepsFile(written, s.buffer, folder, s.disk, PathOf(folder, s.buffer[bad]));
      OneExceptionLess(folder, t, bad);
    }
  }

  /** The same condition told from the state before the save alone. */
  lemma PlainPromiseKeptExactly(folder: string, openable: string -> bool, s: State,
                                error: bool, bad: Doc, written: seq<Doc>, t: State)
    requires s.Tracked() && Effect(folder, openable, s, error, bad, written, t) && CoherentBut(folder, s, {})
    ensures CoherentBut(folder, t, {}) <==>
      && NoneOverwritten(folder, openable, s, {})
      && forall d :: StopsAt(folder, openable, s, d) ==> FileHolds(s.disk, folder, s.buffer[d])
    ensures DistinctPaths(s.buffer, folder) ==> NoneOverwritten(folder, openable, s, {})
  {
    hide PathOf, Written, CoherentBut, NoneOverwritten, StopsAt, FileHolds;
    EffectFailsExactly(folder, openable, s, error, bad, written, t);
    CleanStaysCurrentExactly(folder, openable, s, error, bad, written, t);
    if DistinctPaths(s.buffer, folder) { DistinctPathsSuffice(folder, openable, s, {}); }
  }

  lemma OneExceptionLess(folder: string, s: State, d: Doc)
    requires d in s.buffer && (d in s.flags ==> !s.flags[d])
    ensures CoherentBut(folder, s, {}) <==> CoherentBut(folder, s, {d}) && FileHolds(s.disk, folder, s.buffer[d])
  {
    hide FileHolds;
  }

  /** A failing save leaves strictly fewer documents dirty, and one less of those
      that cannot be opened; a save that does not fail leaves none. */
  lemma EffectMakesProgress(folder: string, openable: string -> bool, s: State,
                            error: bool, bad: Doc, written: seq<Doc>, t: State)
    requires s.Tracked() && Effect(folder, openable, s, error, bad, written, t)
    ensures error ==> Dirty(t.flags) < Dirty(s.flags)
    ensures error ==> |DirtyUnopenable(folder, openable, t)| == |DirtyUnopenable(folder, openable, s)| - 1
    ensures !error ==> Dirty(t.flags) == {}
  {
    hide PathOf, Written;
    if error {
      assert bad in Dirty(s.flags) && bad !in Dirty(t.flags);
      EffectFailsExactly(folder, openable, s, error, bad, written, t);
      assert StopsAt(folder, openable, s, bad);
      assert DirtyUnopenable(folder, openable, t) == DirtyUnopenable(folder, openable, s) - {bad};
    }
  }

  /** What repeated saves have done so far: from the dirty documents that can be
      opened those that are clean by now have been written, in the order of the
      map, and all that are still dirty come after them. */
  ghost predicate SavedSoFar(folder: string, openable: string -> bool, s: State, written: seq<Doc>, t: State)
    requires s.Tracked()
  {
    && t.flags.Keys == s.flags.Keys && t.buffer == s.buffer && Dirty(t.flags) <= Dirty(s.flags)
    && (forall i :: 0 <= i < |written| ==> written[i] in s.buffer)
    && (forall i, j :: 0 <= i < j < |written| ==> written[i] < written[j])
    && (forall d :: d in written <==>
          d in Dirty(s.flags) && openable(PathOf(folder, s.buffer[d])) && d !in Dirty(t.flags))
    && (forall d, e :: d in written && e in Dirty(t.flags) ==> d < e)
    && t.disk == Written(written, s.buffer, folder, s.disk)
  }

  lemma NothingSavedYet(folder: string, openable: string -> bool, s: State)
    requires s.Tracked()
    ensures SavedSoFar(folder, openable, s, [], s)
  {
  }

  lemma SavedSomeMore(folder: string, openable: string -> bool, s: State, written: seq<Doc>, t: State,
                      error: bool, bad: Doc, more: seq<Doc>, u: State)
    requires s.Tracked() && SavedSoFar(folder, openable, s, written, t)
    requires Effect(folder, openable, t, error, bad, more, u)
    ensures SavedSoFar(folder, openable, s, written + more, u)
  {
    hide PathOf, Written;
    WrittenInTwo(written, more, s.buffer, folder, s.disk);
    assert Dirty(u.flags) <= Dirty(t.flags);
  }

  lemma AllSaved(folder: string, openable: string -> bool, s: State, written: seq<Doc>, t: State)
    requires s.Tracked() && SavedSoFar(folder, openable, s, written, t) && Dirty(t.flags) == {}
    ensures forall i :: 0 <= i < |written| ==> written[i] in s.buffer
    ensures forall i, j :: 0 <= i < j < |written| ==> written[i] < written[j]
    ensures forall d :: d in written <==> d in Dirty(s.flags) && openable(PathOf(folder, s.buffer[d]))
    ensures t.disk == Written(written, s.buffer, folder, s.disk)
    ensures DistinctPaths(s.buffer, folder) ==> forall d :: d in written ==> FileHolds(t.disk, folder, s.buffer[d])
  {
    hide PathOf, Written, FileHolds, DistinctPaths;
    if DistinctPaths(s.buffer, folder) {
      forall d | d in written ensures FileHolds(t.disk, folder, s.buffer[d]) {
        WrittenIsCurrent(written, s.buffer, folder, s.disk, d);
      }
    }
  }

  lemma WrittenIsCurrent(docs: seq<Doc>, buffer: Buffer, folder: string, disk: Disk, d: Doc)
    requires forall j :: 0 <= j < |docs| ==> docs[j] in buffer
    requires forall i, j :: 0 <= i < j < |docs| ==> docs[i] < docs[j]
    requires DistinctPaths(buffer, folder) && d in docs
    ensures FileHolds(Written(docs, buffer, folder, disk), folder, buffer[d])
  {
    hide PathOf, Written;
    var i :| 0 <= i < |docs| && docs[i] == d;
    var path := PathOf(folder, buffer[d]);
    assert LastWriter(docs, buffer, folder, path, i);
    LastWriterWins(docs, buffer, folder, disk, path, i);
  }

  /** What happens to the server's documents, and saves in between. */
  datatype Event =
    | DocumentInsert(doc: Doc, document: Document)
    | DocumentRemove(doc: Doc)
    | DocumentChange(doc: Doc, content: string)
    | Timer(openable: string -> bool)

  function BufferAfter(buffer: Buffer, event: Event): Buffer {
    match event
    case DocumentInsert(d, document) => buffer[d := document]
    case DocumentRemove(d) => buffer - {d}
    case DocumentChange(d, content) => if d in buffer then buffer[d := buffer[d].(content := content)] else buffer
    case Timer(_) => buffer
  }

  /** Documents are inserted once and exist when they change or go. */
  predicate Possible(buffer: Buffer, events: seq<Event>)
    decreases |events|
  {
    events != [] ==>
      && (match events[0]
          case DocumentInsert(d, _) => d !in buffer
          case DocumentRemove(d) => d in buffer
          case DocumentChange(d, _) => d in buffer
          case Timer(_) => true)
      && Possible(BufferAfter(buffer, events[0]), events[1..])
  }

  /** What one event does. */
  ghost predicate Stepped(folder: string, s: State, event: Event, t: State)
    requires s.Tracked()
  {
    && t.buffer == BufferAfter(s.buffer, event)
    && match event
       case DocumentInsert(d, _) => t.flags == s.flags[d := true] && t.disk == s.disk && t.failed == s.failed
       case DocumentRemove(d) => t.flags == s.flags - {d} && t.disk == s.disk && t.failed == s.failed - {d}
       case DocumentChange(d, _) => t.flags == s.flags[d := true] && t.disk == s.disk && t.failed == s.failed
       case Timer(openable) => exists error, bad, written :: Effect(folder, openable, s, error, bad, written, t)
  }

  /** What one event does, in plain terms: a new or changed document is dirty, a
      removed one forgotten, and all others stay as they are. */
  lemma SteppedIs(folder: string, s: State, event: Event, t: State)
    requires s.Tracked() && Stepped(folder, s, event, t) && (event.DocumentChange? ==> event.doc in s.buffer)
    ensures event.DocumentInsert? ==>
      t == State(s.flags[event.doc := true], s.buffer[event.doc := event.document], s.disk, s.failed)
    ensures event.DocumentRemove? ==>
      t == State(s.flags - {event.doc}, s.buffer - {event.doc}, s.disk, s.failed - {event.doc})
    ensures event.DocumentChange? ==>
      t == State(s.flags[event.doc := true], s.buffer[event.doc := s.buffer[event.doc].(content := event.content)],
                 s.disk, s.failed)
    ensures event.Timer? ==> exists error, bad, written :: Effect(folder, event.openable, s, error, bad, written, t)
  {
  }

  /** The events are possible one after the other: documents are inserted once, and
      exist when they change or go. */
  lemma PossibleIs(buffer: Buffer, event: Event, events: seq<Event>)
    ensures Possible(buffer, [])
    ensures Possible(buffer, [event] + events) <==>
      && (event.DocumentInsert? ==> event.doc !in buffer)
      && (event.DocumentRemove? || event.DocumentChange? ==> event.doc in buffer)
      && Possible(BufferAfter(buffer, event), events)
  {
    assert ([event] + events)[1..] == events;
  }

  /** The states that the autosaver goes through as the events happen. */
  ghost predicate IsTrace(folder: string, events: seq<Event>, trace: seq<State>) {
    && |trace| == |events| + 1 && (forall k :: 0 <= k < |trace| ==> trace[k].Tracked())
    && forall k :: 0 <= k < |events| ==> Stepped(folder, trace[k], events[k], trace[k + 1])
  }

  /** The events and the first state settle all that happens. */
  lemma {:induction false} TraceIsUnique(folder: string, events: seq<Event>, a: seq<State>, b: seq<State>)
    requires IsTrace(folder, events, a) && IsTrace(folder, events, b) && a[0] == b[0]
    ensures a == b
    decreases |events|
  {
    hide Effect;
    if events != [] {
      var s := a[0];
      assert Stepped(folder, a[0], events[0], a[0 + 1]) && Stepped(folder, b[0], events[0], b[0 + 1]);
      if events[0].Timer? {
        var openable := events[0].openable;
        var error, bad, written :| Effect(folder, openable, s, error, bad, written, a[1]);
        var error', bad', written' :| Effect(folder, openable, s, error', bad', written', b[1]);
        EffectIsDetermined(folder, openable, s, error, bad, written, a[1], error', bad', written', b[1]);
      }
      TailOfTrace(folder, events, a);
      TailOfTrace(folder, events, b);
      TraceIsUnique(folder, events[1..], a[1..], b[1..]);
      assert a == [a[0]] + a[1..] && b == [b[0]] + b[1..];
    }
  }

  lemma TailOfTrace(folder: string, events: seq<Event>, trace: seq<State>)
    requires IsTrace(folder, events, trace) && events != []
    ensures IsTrace(folder, events[1..], trace[1..])
  {
    hide Stepped, State.Tracked;
    forall k | 0 <= k < |events[1..]|
      ensures trace[1..][k].Tracked() && Stepped(folder, trace[1..][k], events[1..][k], trace[1..][k + 1])
    {
      assert trace[k + 1].Tracked() && Stepped(folder, trace[k + 1], events[k + 1], trace[k + 1 + 1]);
    }
  }

  lemma TraceExtended(folder: string, s: State, event: Event, events: seq<Event>, trace: seq<State>)
    requires IsTrace(folder, events, trace) && s.Tracked() && Stepped(folder, s, event, trace[0])
    ensures IsTrace(folder, [event] + events, [s] + trace)
  {
    hide Stepped, State.Tracked;
    var events', trace' := [event] + events, [s] + trace;
    forall k | 0 <= k < |events'|
      ensures trace'[k].Tracked() && Stepped(folder, trace'[k], events'[k], trace'[k + 1])
    {
      if k > 0 { assert trace[k - 1].Tracked() && Stepped(folder, trace[k - 1], events[k - 1], trace[k - 1 + 1]); }
    }
    assert trace'[|events'|] == trace[|events|];
  }

  /** No two documents share a file whenever they are saved. */
  ghost predicate DistinctWhenSaved(folder: string, events: seq<Event>, trace: seq<State>)
    requires |trace| == |events| + 1
  {
    forall k :: 0 <= k < |events| && events[k].Timer? ==> DistinctPaths(trace[k].buffer, folder)
  }

  /** No save overwrites a clean document's file. */
  ghost predicate Harmless(folder: string, s: State, event: Event)
    requires s.Tracked()
  {
    event.Timer? ==> NoneOverwritten(folder, event.openable, s, s.failed)
  }

  lemma StepKeepsCoherenceExactly(folder: string, s: State, event: Event, t: State)
    requires s.Tracked() && Stepped(folder, s, event, t) && CoherentState(folder, s)
    ensures CoherentState(folder, t) <==> Harmless(folder, s, event)
  {
    hide PathOf, Effect, NoneOverwritten;
    if event.Timer? {
      var error, bad, written :| Effect(folder, event.openable, s, error, bad, written, t);
      FailedAfter(folder, event.openable, s, error, bad, written, t);
      CoherenceKeptExactly(folder, event.openable, s, error, bad, written, t, s.failed);
    }
  }

  lemma FailedAfter(folder: string, openable: string -> bool, s: State,
                    error: bool, bad: Doc, written: seq<Doc>, t: State)
    requires s.Tracked() && Effect(folder, openable, s, error, bad, written, t)
    ensures t.failed == s.failed - (set d | d in written) + (if error then {bad} else {})
  {
  }

  /** Clean documents whose last save attempt did not fail are current all the way
      exactly if no save overwrites such a document's file. */
  lemma {:induction false} CoherentAllAlongExactly(folder: string, events: seq<Event>, trace: seq<State>)
    requires IsTrace(folder, events, trace) && CoherentState(folder, trace[0])
    ensures (forall k :: 0 <= k < |trace| ==> CoherentState(folder, trace[k])) <==>
      forall k :: 0 <= k < |events| ==> Harmless(folder, trace[k], events[k])
    decreases |events|
  {
    hide CoherentState, Stepped, Harmless, State.Tracked;
    if events != [] {
      TailOfTrace(folder, events, trace);
      assert trace[0].Tracked() && Stepped(folder, trace[0], events[0], trace[0 + 1]);
      StepKeepsCoherenceExactly(folder, trace[0], events[0], trace[1]);
      var rest, later := events[1..], trace[1..];
      if CoherentState(folder, trace[1]) {
        CoherentAllAlongExactly(folder, rest, later);
        assert forall k :: 0 <= k < |trace| ==> trace[k] == if k == 0 then trace[0] else later[k - 1];
        assert forall k :: 0 <= k < |events| ==> events[k] == if k == 0 then events[0] else rest[k - 1];
        assert forall k :: 0 <= k < |later| ==> later[k] == trace[k + 1];
        assert forall k :: 0 <= k < |rest| ==> rest[k] == events[k + 1];
      }
    }
  }

  class AutoSaveFolder {
    const folder: string
    var m_map: Flags
    var buffer: Buffer          // the server's documents
    var disk: Disk
    ghost var failed: set<Doc>  // documents whose last save attempt failed

    ghost function Now(): State reads this { State(m_map, buffer, disk, failed) }

    ghost predicate Valid() reads this { Now().Tracked() && failed <= m_map.Keys }

    ghost predicate Coherent() reads this { CoherentState(folder, Now()) }

    constructor (folder: string, buffer: Buffer, disk: Disk)
      ensures this.folder == folder && this.buffer == buffer && this.disk == disk
      ensures Valid() && Coherent() && Dirty(m_map) == buffer.Keys && failed == {}
    {
      this.folder, this.buffer, this.disk := folder, buffer, disk;
      m_map, failed := map d | d in buffer :: true, {};
    }

    method Insert(d: Doc, document: Document)
      requires Valid() && d !in buffer
      modifies `m_map, `buffer
      ensures Valid() && (old(Coherent()) ==> Coherent())
      ensures buffer == old(buffer)[d := document] && m_map == old(m_map)[d := true]
    {
      buffer := buffer[d := document];
      m_map := m_map[d := true];
    }

    method Remove(d: Doc)
      requires Valid() && d in buffer
      modifies `m_map, `buffer, `failed
      ensures Valid() && (old(Coherent()) ==> Coherent())
      ensures buffer == old(buffer) - {d} && m_map == old(m_map) - {d} && failed == old(failed) - {d}
    {
      buffer, failed := buffer - {d}, failed - {d};
      m_map := m_map - {d};
    }

    method Change(d: Doc, content: string)
      requires Valid() && d in buffer
      modifies `m_map, `buffer
      ensures Valid() && (old(Coherent()) ==> Coherent())
      ensures buffer == old(buffer)[d := old(buffer)[d].(content := content)] && m_map == old(m_map)[d := true]
    {
      buffer := buffer[d := buffer[d].(content := content)];
      m_map := m_map[d := true];
    }

    /** One save. `openable` tells which paths can be opened for writing. The dirty
        documents before the first that cannot be opened are written, each to the
        file of its base name in the folder; a later one of the same name wins. */
    method Save(openable: string -> bool) returns (error: bool, ghost bad: Doc, ghost written: seq<Doc>)
      requires Valid()
      modifies `m_map, `disk, `failed
      ensures Valid() && Effect(folder, openable, old(Now()), error, bad, written, Now())
      ensures old(Coherent()) ==> (Coherent() <==> NoneOverwritten(folder, openable, old(Now()), old(failed)))
      ensures old(Coherent()) && DistinctPaths(buffer, folder) ==> Coherent()
      ensures error <==> DirtyUnopenable(folder, openable, old(Now())) != {}
      ensures error ==> StopsAt(folder, openable, old(Now()), bad)
      ensures error <==> exists d :: d in old(m_map) && old(m_map)[d] && !openable(PathOf(folder, buffer[d]))
      ensures error ==> bad in old(m_map) && old(m_map)[bad] && !openable(PathOf(folder, buffer[bad]))
      ensures forall d :: d in written <==> d in old(m_map) && old(m_map)[d] && (error ==> d < bad)
      ensures forall d :: d in m_map ==> (m_map[d] <==> error && d > bad && old(m_map)[d])
      ensures forall d :: d in written ==> var title := buffer[d].title;
        exists prefix, name :: '/' !in name && (title == name || title == prefix + "/" + name) &&
          PathOf(folder, buffer[d]) == folder + "/" + name
      ensures forall i | 0 <= i < |written| &&
          (forall j :: i < j < |written| ==>
             PathOf(folder, buffer[written[j]]) != PathOf(folder, buffer[written[i]])) ::
        var path := PathOf(folder, buffer[written[i]]);
        path in disk && disk[path] == buffer[written[i]].content
      ensures forall path | (forall d :: d in written ==> PathOf(folder, buffer[d]) != path) ::
        (path in disk <==> path in old(disk)) && (path in disk ==> disk[path] == old(disk)[path])
      ensures failed == old(failed) - (set d | d in written) + (if error then {bad} else {})
    {
      error, bad, written := Walk(openable);
      hide Effect, CoherentBut, DistinctPaths, DirtyUnopenable, StopsAt, NoneOverwritten, PathOf;
      EffectFailsExactly(folder, openable, old(Now()), error, bad, written, Now());
      EffectIs(folder, openable, old(Now()), error, bad, written, Now());
      FilesAre(folder, openable, old(Now()), error, bad, written, Now());
      if old(Coherent()) {
        FailedAfter(folder, openable, old(Now()), error, bad, written, Now());
        CoherenceKeptExactly(folder, openable, old(Now()), error, bad, written, Now(), old(failed));
        if DistinctPaths(buffer, folder) {
          DistinctPathsSuffice(folder, openable, old(Now()), old(failed));
        }
      }
    }

    /** The loop of a save over the map. */
    method Walk(openable: string -> bool) returns (error: bool, ghost bad: Doc, ghost written: seq<Doc>)
      requires Valid()
      modifies `m_map, `disk, `failed
      ensures Valid() && Effect(folder, openable, old(Now()), error, bad, written, Now())
    {
      hide Walked, Effect;
      error, bad, written := false, 0, [];
      ghost var start := Now();
      WalkStarts(folder, openable, start);
      var rest := m_map.Keys;
      assert start.flags.Keys - rest == {};
      while rest != {}
        invariant rest <= start.flags.Keys && m_map.Keys == start.flags.Keys && failed <= start.flags.Keys
        invariant forall d :: d in rest ==> m_map[d] == start.flags[d]
        invariant Walked(folder, openable, start, start.flags.Keys - rest, written, Now())
        decreases rest
      {
        ghost var least := LeastExists(rest);
        var d :| d in rest && forall e :: e in rest ==> d <= e;
        ghost var seen, walked := start.flags.Keys - rest, Now();
        rest := rest - {d};
        assert start.flags.Keys - rest == seen + {d};
        if !m_map[d] {
          WalkPastClean(folder, openable, start, seen, written, walked, d);
          continue;
        }
        m_map := m_map[d := false];
        var content := buffer[d].content;
        var path := PathOf(folder, buffer[d]);
        if !openable(path) {
          WalkStops(folder, openable, start, seen, written, walked, d);
          error, bad, failed := true, d, failed + {d};
          return;
        }
        WalkAndWrite(folder, openable, start, seen, written, walked, d);
        disk := disk[path := content];
        written, failed := written + [d], failed - {d};
      }
      assert start.flags.Keys - rest == start.flags.Keys;
      WalkEnds(folder, openable, start, written, Now());
    }

    /** Saving again and again, with no edits in between and fixed openability,
        gets past the documents that cannot be opened: with f of them dirty,
        after at most f + 1 saves nothing is dirty, and the disk is what one
        save would have made of it had those documents not been there. */
    method SaveUntilClean(openable: string -> bool) returns (calls: nat, ghost written: seq<Doc>)
      requires Valid()
      modifies `m_map, `disk, `failed
      ensures Valid() && Dirty(m_map) == {} && forall d :: d in m_map ==> !m_map[d]
      ensures var unopenable := set d | d in old(m_map) && old(m_map)[d] && !openable(PathOf(folder, buffer[d]));
        calls <= |unopenable| + 1
      ensures calls <= |DirtyUnopenable(folder, openable, old(Now()))| + 1
      ensures forall i :: 0 <= i < |written| ==> written[i] in buffer
      ensures forall i, j :: 0 <= i < j < |written| ==> written[i] < written[j]
      ensures forall d :: d in written <==> d in Dirty(old(m_map)) && openable(PathOf(folder, buffer[d]))
      ensures disk == Written(written, buffer, folder, old(disk))
      ensures DistinctPaths(buffer, folder) ==> forall d :: d in written ==> FileHolds(disk, folder, buffer[d])
    {
      hide Effect, Written, DistinctPaths, DirtyUnopenable, PathOf, FileHolds, SavedSoFar;
      var error := true;
      calls, written := 0, [];
      NothingSavedYet(folder, openable, Now());
      while error
        invariant Valid()
        invariant error ==>
          calls + |DirtyUnopenable(folder, openable, Now())| <= |DirtyUnopenable(folder, openable, old(Now()))|
        invariant !error ==> Dirty(m_map) == {} && calls <= |DirtyUnopenable(folder, openable, old(Now()))| + 1
        invariant SavedSoFar(folder, openable, old(Now()), written, Now())
        decreases if error then 1 + |DirtyUnopenable(folder, openable, Now())| else 0
      {
        ghost var before := Now();
        ghost var bad, more;
        error, bad, more := Save(openable);
        calls := calls + 1;
        EffectMakesProgress(folder, openable, before, error, bad, more, Now());
        SavedSomeMore(folder, openable, old(Now()), written, before, error, bad, more, Now());
        written := written + more;
      }
      AllSaved(folder, openable, old(Now()), written, Now());
      assert forall d :: d in m_map && m_map[d] ==> d in Dirty(m_map);
      DirtyUnopenableIs(folder, openable, old(Now()));
    }

    /** One event of a run. */
    method Handle(event: Event)
      requires Valid() && Possible(buffer, [event])
      modifies this
      ensures Valid() && Stepped(folder, old(Now()), event, Now())
      ensures event.DocumentInsert? ==>
        buffer == old(buffer)[event.doc := event.document] && m_map == old(m_map)[event.doc := true]
      ensures event.DocumentRemove? ==> buffer == old(buffer) - {event.doc} && m_map == old(m_map) - {event.doc}
      ensures event.DocumentChange? ==>
        && buffer == old(buffer)[event.doc := old(buffer)[event.doc].(content := event.content)]
        && m_map == old(m_map)[event.doc := true]
      ensures !event.Timer? ==> disk == old(disk)
      ensures !event.Timer? ==> failed == old(failed) - (if event.DocumentRemove? then {event.doc} else {})
      ensures event.Timer? ==> buffer == old(buffer)
      ensures event.Timer? ==>
        exists error, bad, written :: Effect(folder, event.openable, old(Now()), error, bad, written, Now())
    {
      hide Effect, CoherentState;
      match event {
        case DocumentInsert(d, document) => Insert(d, document);
        case DocumentRemove(d) => Remove(d);
        case DocumentChange(d, content) => Change(d, content);
        case Timer(openable) =>
          ghost var error, bad, written;
          error, bad, written := Save(openable);
          assert Effect(folder, openable, old(Now()), error, bad, written, Now());
      }
    }

    /** Over every run: the states are those the events lead to, the tracked
        documents are the server's in all of them, and clean documents whose last
        save attempt did not fail are current in all of them exactly if no save
        overwrites such a document's file. */
    method Run(events: seq<Event>) returns (ghost trace: seq<State>)
      requires Valid() && Possible(buffer, events)
      modifies this
      ensures Valid() && IsTrace(folder, events, trace) && trace[0] == old(Now()) && trace[|events|] == Now()
      ensures old(Coherent()) ==>
        ((forall k :: 0 <= k < |trace| ==> CoherentState(folder, trace[k])) <==>
         forall k :: 0 <= k < |events| ==> Harmless(folder, trace[k], events[k]))
      ensures old(Coherent()) && DistinctWhenSaved(folder, events, trace) ==> Coherent()
    {
      trace := RunAll(events);
      hide CoherentBut, Stepped, NoneOverwritten, DistinctPaths;
      if old(Coherent()) {
        CoherentAllAlongExactly(folder, events, trace);
        if DistinctWhenSaved(folder, events, trace) {
          forall k | 0 <= k < |events| ensures Harmless(folder, trace[k], events[k]) {
            if events[k].Timer? { DistinctPathsSuffice(folder, events[k].openable, trace[k], trace[k].failed); }
          }
        }
      }
    }

    method RunAll(events: seq<Event>) returns (ghost trace: seq<State>)
      requires Valid() && Possible(buffer, events)
      modifies this
      ensures Valid() && IsTrace(folder, events, trace) && trace[0] == old(Now()) && trace[|events|] == Now()
      decreases |events|
    {
      trace := [Now()];
      if events != [] {
        assert [events[0]][1..] == [];
        Handle(events[0]);
        ghost var rest := RunAll(events[1..]);
        TraceExtended(folder, old(Now()), events[0], events[1..], rest);
        assert [events[0]] + events[1..] == events;
        trace := trace + rest;
      }
    }
  }

  /** Without the exception for failed attempts a clean flag is worth nothing: a
      document that cannot be opened is clean after one save, with no file. */
  lemma FailedSaveCleansTheFlag(folder: string, d: Doc, document: Document)
    ensures var s := State(map[d := true], map[d := document], map[], {});
      var t := State(map[d := false], map[d := document], map[], {d});
      Effect(folder, path => false, s, true, d, [], t) && !FileHolds(t.disk, folder, document)
  {
    WrittenNone(map[d := document], folder, map[]);
  }

  /** Two documents whose titles end alike share a file: saving the one that was
      changed leaves the clean other one with a file that is not its own. */
  lemma SharedFileIsOverwritten(folder: string, a: Document, b: Document)
    requires FileName(a.title) == FileName(b.title) && a.content != b.content
    ensures var path := PathOf(folder, a);
      var s := State(map[0 := false, 1 := true], map[0 := a, 1 := b], map[path := a.content], {});
      var t := State(map[0 := false, 1 := false], map[0 := a, 1 := b], map[path := b.content], {});
      && CoherentState(folder, s) && Effect(folder, path => true, s, false, 0, [1], t)
      && !FileHolds(t.disk, folder, a)
  {
    assert [1][..0] == [];
    WrittenNone(map[0 := a, 1 := b], folder, map[PathOf(folder, a) := a.content]);
  }
}
