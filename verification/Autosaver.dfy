/** The autosaver that keeps the whole session in one file (src/autosaver.cpp):
    one flag for all documents, cleared only after the session is written, and
    removals that do not count as modifications. */
module AutosaverModel {
  import opened Common

  type Session = map<Doc, string>

  /** What happens to the server's documents; saves are asked for or timed, and
      writing the session or spawning the hook may fail. */
  datatype Event =
    | DocumentInsert(doc: Doc, content: string)
    | DocumentRemove(doc: Doc)
    | DocumentChange(doc: Doc, content: string)
    | SaveRequest(serialises: bool, spawns: bool)
    | Timer(serialises: bool, spawns: bool)

  function SessionAfter(session: Session, event: Event): Session {
    match event
    case DocumentInsert(d, content) => session[d := content]
    case DocumentRemove(d) => session - {d}
    case DocumentChange(d, content) => session[d := content]
    case _ => session
  }

  /** Documents are inserted once and exist when they change or go. */
  predicate Possible(session: Session, events: seq<Event>)
    decreases |events|
  {
    events != [] ==>
      && (match events[0]
          case DocumentInsert(d, _) => d !in session
          case DocumentRemove(d) => d in session
          case DocumentChange(d, _) => d in session
          case _ => true)
      && Possible(SessionAfter(session, events[0]), events[1..])
  }

  predicate OnlyRemovals(events: seq<Event>) {
    events != [] ==> (events[0].DocumentRemove? || events[0].Timer?) && OnlyRemovals(events[1..])
  }

  function Removals(events: seq<Event>): set<Doc> {
    if events == [] then {}
    else (if events[0].DocumentRemove? then {events[0].doc} else {}) + Removals(events[1..])
  }

  /** The server's documents, the saved session, the flag, and the documents that
      were removed since the session was last written. */
  datatype State = State(session: Session, file: Option<Session>, modified: bool, removed: set<Doc>) {
    /** What a cleared flag is worth: every document of the server is in the file
        as it is now, and the file has besides only those removed since. */
    predicate Valid() {
      !modified ==> file.Some? && session == file.value - removed && removed <= file.value.Keys
    }
  }

  /** An event that writes the session. */
  predicate Writes(s: State, event: Event) {
    match event
    case SaveRequest(serialises, _) => serialises
    case Timer(serialises, _) => s.modified && serialises
    case _ => false
  }

  function Step(s: State, event: Event): State {
    if Writes(s, event) then State(s.session, Some(s.session), false, {})
    else
      match event
      case DocumentInsert(d, content) => s.(session := s.session[d := content], modified := true)
      case DocumentRemove(d) => s.(session := s.session - {d}, removed := s.removed + {d})
      case DocumentChange(d, content) => s.(session := s.session[d := content], modified := true)
      case _ => s
  }

  function Steps(s: State, events: seq<Event>): State {
    if events == [] then s else Step(Steps(s, events[..|events| - 1]), events[|events| - 1])
  }

  lemma {:induction false} StepsFromFront(s: State, events: seq<Event>)
    requires events != []
    ensures Steps(s, events) == Steps(Step(s, events[0]), events[1..])
    decreases |events|
  {
    hide Step;
    var n := |events| - 1;
    if n == 0 {
      assert events[..0] == [] && Steps(s, events[..0]) == s;
    } else {
      StepsFromFront(s, events[..n]);
      assert events[..n][1..] == events[1..][..n - 1];
    }
  }

  lemma {:induction false} StepsKeepValid(s: State, events: seq<Event>)
    requires s.Valid() && Possible(s.session, events)
    ensures Steps(s, events).Valid()
    decreases |events|
  {
    if events != [] {
      StepsFromFront(s, events);
      StepsKeepValid(Step(s, events[0]), events[1..]);
    }
  }

  /** Removals alone are never written by the timer, however often it fires. */
  lemma {:induction false} RemovalsAreNotWritten(s: State, events: seq<Event>)
    requires !s.modified && OnlyRemovals(events)
    ensures var t := Steps(s, events);
      !t.modified && t.file == s.file && t.removed == s.removed + Removals(events)
    decreases |events|
  {
    if events != [] {
      StepsFromFront(s, events);
      RemovalsAreNotWritten(Step(s, events[0]), events[1..]);
    }
  }

  lemma {:induction false} OnlyRemovalsIs(events: seq<Event>)
    ensures OnlyRemovals(events) <==> forall i :: 0 <= i < |events| ==> events[i].DocumentRemove? || events[i].Timer?
    ensures Removals(events) == set i | 0 <= i < |events| && events[i].DocumentRemove? :: events[i].doc
    decreases |events|
  {
    if events != [] {
      var rest := events[1..];
      OnlyRemovalsIs(rest);
      assert forall i :: 1 <= i < |events| ==> events[i] == rest[i - 1];
      assert forall i :: 0 <= i < |rest| ==> rest[i] == events[i + 1];
    }
  }

  /** The events are possible one after the other: documents are inserted once, and
      exist when they change or go. */
  lemma PossibleIs(session: Session, event: Event, events: seq<Event>)
    ensures Possible(session, [])
    ensures Possible(session, [event] + events) <==>
      && (event.DocumentInsert? ==> event.doc !in session)
      && (event.DocumentRemove? || event.DocumentChange? ==> event.doc in session)
      && Possible(SessionAfter(session, event), events)
  {
    assert ([event] + events)[1..] == events;
  }

  /** The position of the last event that writes the session, or -1. */
  function LastSave(s: State, events: seq<Event>): (last: int)
    ensures -1 <= last < |events|
    ensures last >= 0 ==> events[last].SaveRequest? || (events[last].Timer? && Steps(s, events[..last]).modified)
    ensures last >= 0 ==> events[last].serialises
    ensures forall j :: last < j < |events| && events[j].SaveRequest? ==> !events[j].serialises
    ensures forall j :: last < j < |events| && events[j].Timer? && Steps(s, events[..j]).modified ==>
      !events[j].serialises
  {
    if events == [] then -1
    else
      var n := |events| - 1;
      if Writes(Steps(s, events[..n]), events[n]) then n
      else
        var last := LastSave(s, events[..n]);
        assert forall j :: 0 <= j <= n ==> events[..n][..j] == events[..j];
        last
  }

  /** Something was inserted or changed after position `last`. */
  predicate ModifiedAfter(events: seq<Event>, last: int)
    requires -1 <= last
  {
    exists j :: last < j < |events| && (events[j].DocumentInsert? || events[j].DocumentChange?)
  }

  predicate NoneRemovedAfter(events: seq<Event>, last: int)
    requires -1 <= last
  {
    forall j :: last < j < |events| ==> !events[j].DocumentRemove?
  }

  /** The documents that were removed after position `last`. */
  function RemovedAfter(events: seq<Event>, last: int): (docs: set<Doc>)
    requires -1 <= last
    ensures docs == {} <==> NoneRemovedAfter(events, last)
  {
    var docs := set j | last < j < |events| && events[j].DocumentRemove? :: events[j].doc;
    assert forall j :: last < j < |events| && events[j].DocumentRemove? ==> events[j].doc in docs;
    docs
  }

  lemma AfterOneMore(events: seq<Event>, event: Event, last: int)
    requires -1 <= last < |events|
    ensures ModifiedAfter(events + [event], last) <==>
      ModifiedAfter(events, last) || event.DocumentInsert? || event.DocumentChange?
    ensures RemovedAfter(events + [event], last) ==
      RemovedAfter(events, last) + if event.DocumentRemove? then {event.doc} else {}
    ensures !ModifiedAfter(events, |events| - 1) && RemovedAfter(events, |events| - 1) == {}
  {
    var n, more := |events|, events + [event];
    assert more[n] == event && forall j :: 0 <= j < n ==> more[j] == events[j];
  }

  /** What a run leaves behind, told by its events: the file as of the last save,
      the flag if anything was inserted or changed since, and the removals since. */
  lemma {:induction false} SinceTheLastSave(s: State, events: seq<Event>)
    ensures var last, t := LastSave(s, events), Steps(s, events);
      && t.file == (if last < 0 then s.file else Some(Steps(s, events[..last]).session))
      && (t.modified <==> ModifiedAfter(events, last) || (last < 0 && s.modified))
      && t.removed == RemovedAfter(events, last) + if last < 0 then s.removed else {}
    decreases |events|
  {
    hide ModifiedAfter, RemovedAfter, Steps, LastSave;
    if events == [] {
      NothingAfter(s);
    } else {
      var n := |events| - 1;
      var before := events[..n];
      var last := LastSave(s, before);
      SinceTheLastSave(s, before);
      OneMore(s, before, events[n]);
      assert events == before + [events[n]];
      AfterOneMore(before, events[n], last);
      AfterOneMore(events, events[n], n);
      if last >= 0 { assert before[..last] == events[..last]; }
    }
  }

  lemma NothingAfter(s: State)
    ensures LastSave(s, []) == -1 && Steps(s, []) == s && !ModifiedAfter([], -1) && RemovedAfter([], -1) == {}
  {
  }

  lemma OneMore(s: State, events: seq<Event>, event: Event)
    ensures Steps(s, events + [event]) == Step(Steps(s, events), event)
    ensures LastSave(s, events + [event]) ==
      if Writes(Steps(s, events), event) then |events| else LastSave(s, events)
  {
    assert (events + [event])[..|events|] == events;
  }

  lemma RequestIsWritten(s: State, events: seq<Event>)
    ensures events != [] && events[|events| - 1].SaveRequest? && events[|events| - 1].serialises ==>
      var t := Steps(s, events); t.file == Some(t.session) && !t.modified && t.removed == {}
  {
  }

  /** Exactly when a cleared flag means that the file holds the server's session:
      when no document was removed after the last save. */
  lemma CurrentExactly(s: State, events: seq<Event>)
    requires s.Valid() && Possible(s.session, events) && !Steps(s, events).modified
    ensures var last, t := LastSave(s, events), Steps(s, events);
      t.file == Some(t.session) <==> NoneRemovedAfter(events, last) && (last < 0 ==> s.removed == {})
  {
    hide NoneRemovedAfter, RemovedAfter, Steps, LastSave;
    StepsKeepValid(s, events);
    SinceTheLastSave(s, events);
    EqualExactly(Steps(s, events));
  }

  lemma EqualExactly(s: State)
    requires s.Valid() && !s.modified
    ensures s.file == Some(s.session) <==> s.removed == {}
  {
    assert s.file.value - {} == s.file.value;
    assert forall d :: d in s.removed ==> d in s.file.value.Keys && d !in s.session.Keys;
  }

  lemma SessionOfStep(s: State, event: Event)
    ensures Step(s, event).session == SessionAfter(s.session, event)
  {
  }

  class AutoSaver {
    const hook: string
    var m_has_modification: bool
    var session: Session            // the server's documents
    var file: Option<Session>
    ghost var removed: set<Doc>     // removed since the session was last written

    ghost function Now(): State reads this { State(session, file, m_has_modification, removed) }

    ghost predicate Valid() reads this { Now().Valid() }

    constructor (session: Session, file: Option<Session>, hook: string)
      ensures this.session == session && this.file == file && this.hook == hook
      ensures m_has_modification && removed == {} && Valid()
    {
      this.session, this.file, this.hook := session, file, hook;
      m_has_modification, removed := true, {};
    }

    method OnDocumentInsert(d: Doc, content: string)
      requires Valid() && d !in session
      modifies `session, `m_has_modification
      ensures Valid() && m_has_modification && session == old(session)[d := content]
    {
      session := session[d := content];
      m_has_modification := true;
    }

    method OnDocumentRemove(d: Doc)
      requires Valid() && d in session
      modifies `session, `removed
      ensures Valid() && session == old(session) - {d} && removed == old(removed) + {d}
    {
      session, removed := session - {d}, removed + {d};
    }

    method OnDocumentChange(d: Doc, content: string)
      requires Valid() && d in session
      modifies `session, `m_has_modification
      ensures Valid() && m_has_modification && session == old(session)[d := content]
    {
      session := session[d := content];
      m_has_modification := true;
    }

    /** A session that cannot be written changes neither the file nor the flag;
        a hook that cannot be spawned is an error, but the session is saved. */
    method Save(serialises: bool, spawns: bool) returns (error: bool)
      requires Valid()
      modifies `file, `m_has_modification, `removed
      ensures Valid()
      ensures serialises ==> !m_has_modification && file == Some(session) && removed == {}
      ensures !serialises ==>
        m_has_modification == old(m_has_modification) && file == old(file) && removed == old(removed)
      ensures error <==> !serialises || (hook != "" && !spawns)
    {
      if !serialises {
        return true;
      }
      file, removed := Some(session), {};
      m_has_modification := false;
      error := hook != "" && !spawns;
    }

    method OnTimer(serialises: bool, spawns: bool)
      requires Valid()
      modifies `file, `m_has_modification, `removed
      ensures Valid()
      ensures !old(m_has_modification) ==> !m_has_modification && file == old(file) && removed == old(removed)
      ensures old(m_has_modification) && serialises ==> !m_has_modification && file == Some(session) && removed == {}
      ensures old(m_has_modification) && !serialises ==>
        m_has_modification && file == old(file) && removed == old(removed)
    {
      if m_has_modification {
        var _ := Save(serialises, spawns);
      }
    }

    method Handle(event: Event)
      requires Valid() && Possible(session, [event])
      modifies this
      ensures Valid() && Now() == Step(old(Now()), event)
      ensures event.DocumentInsert? || event.DocumentChange? ==>
        && session == old(session)[event.doc := event.content] && m_has_modification
        && file == old(file) && removed == old(removed)
      ensures event.DocumentRemove? ==>
        && session == old(session) - {event.doc} && removed == old(removed) + {event.doc}
        && file == old(file) && m_has_modification == old(m_has_modification)
      ensures event.SaveRequest? || event.Timer? ==> session == old(session)
      ensures event.SaveRequest? || (event.Timer? && old(m_has_modification)) ==>
        if event.serialises then file == Some(session) && !m_has_modification && removed == {}
        else file == old(file) && m_has_modification == old(m_has_modification) && removed == old(removed)
      ensures event.Timer? && !old(m_has_modification) ==>
        file == old(file) && !m_has_modification && removed == old(removed)
    {
      match event {
        case DocumentInsert(d, content) => OnDocumentInsert(d, content);
        case DocumentRemove(d) => OnDocumentRemove(d);
        case DocumentChange(d, content) => OnDocumentChange(d, content);
        case SaveRequest(serialises, spawns) => var _ := Save(serialises, spawns);
        case Timer(serialises, spawns) => OnTimer(serialises, spawns);
      }
    }

    method RunAll(events: seq<Event>)
      requires Valid() && Possible(session, events)
      modifies this
      ensures Valid() && Now() == Steps(old(Now()), events)
      decreases |events|
    {
      hide Step;
      if events != [] {
        assert [events[0]][1..] == [];
        SessionOfStep(Now(), events[0]);
        Handle(events[0]);
        StepsFromFront(old(Now()), events);
        RunAll(events[1..]);
      }
    }

    /** Over every run: the events decide what is left of it. While the flag is
        clear the saved session differs from the server's by the removals since it
        was written and by nothing else, and does not differ exactly if there was
        none. */
    method Run(events: seq<Event>)
      requires Valid() && Possible(session, events)
      modifies this
      ensures Valid() && Now() == Steps(old(Now()), events)
      ensures !m_has_modification ==> file.Some?
      ensures !m_has_modification ==> forall d :: d in session ==> d in file.value && file.value[d] == session[d]
      ensures !m_has_modification ==> file.value.Keys - session.Keys == removed
      ensures !m_has_modification ==> (file.value == session <==> removed == {})
      ensures !m_has_modification && (old(m_has_modification) || old(removed) == {}) ==>
        (file == Some(session) <==> NoneRemovedAfter(events, LastSave(old(Now()), events)))
      // A save that is asked for is made, modified or not.
      ensures events != [] && events[|events| - 1].SaveRequest? && events[|events| - 1].serialises ==>
        file == Some(session) && !m_has_modification && removed == {}
      // Removals alone are never written by the timer, however often it fires.
      ensures var quiet := forall i :: 0 <= i < |events| ==> events[i].DocumentRemove? || events[i].Timer?;
        !old(m_has_modification) && quiet ==>
          && !m_has_modification && file == old(file)
          && removed == old(removed) + set i | 0 <= i < |events| && events[i].DocumentRemove? :: events[i].doc
      ensures !old(m_has_modification) && OnlyRemovals(events) ==>
        !m_has_modification && file == old(file) && removed == old(removed) + Removals(events)
    {
      RunAll(events);
      hide Steps, LastSave;
      if !m_has_modification {
        EqualExactly(Now());
        CurrentExactly(old(Now()), events);
        SinceTheLastSave(old(Now()), events);
      }
      OnlyRemovalsIs(events);
      RequestIsWritten(old(Now()), events);
      if !old(m_has_modification) && OnlyRemovals(events) { RemovalsAreNotWritten(old(Now()), events); }
    }
  }
}
