/** Creating a directory with its ancestors (src/config.cpp:84-98). */
module CreatePathModel {

  /** A normalised path, as its components; the empty one is "/" or ".". */
  type Path = seq<string>

  datatype Kind = Directory | File

  class FileSystem {
    var nodes: map<Path, Kind>

    predicate IsDirectory(path: Path) reads this {
      path in nodes && nodes[path].Directory?
    }

    /** The top is a directory and everything lies in a directory. */
    ghost predicate Valid() reads this {
      IsDirectory([]) && forall path :: path in nodes && path != [] ==> IsDirectory(Parent(path))
    }

    /** `mkdir` with the permissions that the process has. */
    method MakeDirectory(path: Path, permitted: Path -> bool) returns (ok: bool)
      requires Valid() && path != []
      modifies this
      ensures Valid()
      ensures var above := path[..|path| - 1];
        ok <==> path !in old(nodes) && above in old(nodes) && old(nodes)[above].Directory? && permitted(path)
      ensures nodes == if ok then old(nodes)[path := Directory] else old(nodes)
    {
      ok := path !in nodes && IsDirectory(Parent(path)) && permitted(path);
      if ok {
        nodes := nodes[path := Directory];
      }
    }

    /** Everything down to the first ancestor that is neither a directory nor can
        be made one is a directory afterwards, and nothing else has changed.
        Success is to get all the way down. */
    method CreatePathTo(to: Path, permitted: Path -> bool) returns (ok: bool, ghost depth: nat)
      requires Valid()
      modifies this
      ensures Valid()
      ensures Reaches(old(nodes), to, permitted, depth) && (ok <==> depth == |to|)
      ensures nodes == WithChain(old(nodes), to, depth)
      ensures ok <==> forall k :: 0 <= k <= |to| ==>
        if to[..k] in old(nodes) then old(nodes)[to[..k]].Directory? else permitted(to[..k])
      ensures forall k :: 0 <= k <= depth ==> to[..k] in nodes && nodes[to[..k]].Directory?
      ensures !ok ==> depth < |to| && var next := to[..depth + 1];
        if next in old(nodes) then old(nodes)[next].File? else !permitted(next)
      ensures forall path :: path in old(nodes) ==> path in nodes && nodes[path] == old(nodes)[path]
      ensures forall path :: path in nodes && path !in old(nodes) ==>
        |path| <= depth && path == to[..|path|] && permitted(path)
      decreases |to|
    {
      hide Reaches, Makeable, WithChain;
      if IsDirectory(to) {
        DirectoryAllTheWay(to);
        ReachesDirectory(nodes, to, permitted);
        ChainAlreadyThere(nodes, to, |to|);
        ReachedIs(nodes, to, permitted, |to|);
        return true, |to|;
      }
      var dirname := Parent(to);
      ok, depth := CreatePathTo(dirname, permitted);
      ReachesBelow(old(nodes), to, permitted, depth);
      ChainOfParent(old(nodes), to, depth);
      if ok {
        ChainIs(old(nodes), to, depth);
        NotYetThere(old(nodes), to, permitted);
        ok := MakeDirectory(to, permitted);
        if ok {
          depth := |to|;
          ChainOneMore(old(nodes), to);
        }
      }
      ReachedIs(old(nodes), to, permitted, depth);
    }

    lemma DirectoryAllTheWay(path: Path)
      requires Valid() && IsDirectory(path)
      ensures forall k :: 0 <= k <= |path| ==> IsDirectory(path[..k])
      decreases |path|
    {
      if path != [] {
        DirectoryAllTheWay(Parent(path));
        forall k | 0 <= k < |path| ensures IsDirectory(path[..k]) { assert path[..k] == Parent(path)[..k]; }
      }
      assert path[..|path|] == path;
    }
  }

  function Parent(path: Path): Path
    requires path != []
  {
    path[..|path| - 1]
  }

  /** `path` is a directory, or is missing and may be made. */
  predicate Makeable(nodes: map<Path, Kind>, path: Path, permitted: Path -> bool) {
    if path in nodes then nodes[path].Directory? else permitted(path)
  }

  /** `depth` is how far `to` can be followed. */
  ghost predicate Reaches(nodes: map<Path, Kind>, to: Path, permitted: Path -> bool, depth: nat) {
    && depth <= |to|
    && (forall k :: 0 <= k <= depth ==> Makeable(nodes, to[..k], permitted))
    && (depth < |to| ==> !Makeable(nodes, to[..depth + 1], permitted))
  }

  /** The same files with the prefixes of `to` down to `depth` made directories. */
  function WithChain(nodes: map<Path, Kind>, to: Path, depth: nat): map<Path, Kind>
    requires depth <= |to|
  {
    (if depth == 0 then nodes else WithChain(nodes, to, depth - 1))[to[..depth] := Directory]
  }

  /** Those prefixes are directories then, and everything else is as before; so
      along a path that can be followed only what was missing is new. */
  lemma {:induction false} ChainIs(nodes: map<Path, Kind>, to: Path, depth: nat)
    requires depth <= |to|
    ensures forall k :: 0 <= k <= depth ==>
      to[..k] in WithChain(nodes, to, depth) && WithChain(nodes, to, depth)[to[..k]].Directory?
    ensures forall path :: |path| > depth || path != to[..|path|] ==>
      (path in WithChain(nodes, to, depth) <==> path in nodes) &&
      (path in nodes ==> WithChain(nodes, to, depth)[path] == nodes[path])
    decreases depth
  {
    if depth > 0 { ChainIs(nodes, to, depth - 1); }
  }

  /** Nothing that was there is changed. */
  lemma OnlyTheMissingIsCreated(nodes: map<Path, Kind>, to: Path, permitted: Path -> bool, depth: nat)
    requires Reaches(nodes, to, permitted, depth)
    ensures forall path :: path in nodes ==>
      path in WithChain(nodes, to, depth) && WithChain(nodes, to, depth)[path] == nodes[path]
    ensures forall path :: path in WithChain(nodes, to, depth) && path !in nodes ==>
      |path| <= depth && path == to[..|path|] && permitted(path)
  {
    ChainIs(nodes, to, depth);
    forall path | |path| <= depth && path == to[..|path|] ensures Makeable(nodes, path, permitted) {
      var k := |path|;
      assert Makeable(nodes, to[..k], permitted);
    }
  }

  lemma ChainOneMore(nodes: map<Path, Kind>, to: Path)
    requires to != []
    ensures WithChain(nodes, to, |to|) == WithChain(nodes, to, |to| - 1)[to := Directory]
  {
    assert to[..|to|] == to;
  }

  /** How far a path can be followed, and what is made on the way, in plain terms. */
  lemma ReachedIs(nodes: map<Path, Kind>, to: Path, permitted: Path -> bool, depth: nat)
    requires Reaches(nodes, to, permitted, depth)
    ensures depth < |to| ==> var next := to[..depth + 1]; if next in nodes then nodes[next].File? else !permitted(next)
    ensures depth <= |to|
    ensures depth == |to| <==>
      forall k :: 0 <= k <= |to| ==> if to[..k] in nodes then nodes[to[..k]].Directory? else permitted(to[..k])
    ensures var after := WithChain(nodes, to, depth);
      && (forall k :: 0 <= k <= depth ==> to[..k] in after && after[to[..k]].Directory?)
      && (forall path :: path in nodes ==> path in after && after[path] == nodes[path])
      && (forall path :: path in after && path !in nodes ==>
            |path| <= depth && path == to[..|path|] && permitted(path))
  {
    hide WithChain;
    ChainIs(nodes, to, depth);
    OnlyTheMissingIsCreated(nodes, to, permitted, depth);
    assert forall k :: 0 <= k <= depth ==> Makeable(nodes, to[..k], permitted);
    assert depth < |to| ==> !Makeable(nodes, to[..depth + 1], permitted);
  }

  lemma {:induction false} ChainAlreadyThere(nodes: map<Path, Kind>, to: Path, depth: nat)
    requires depth <= |to| && forall k :: 0 <= k <= depth ==> to[..k] in nodes && nodes[to[..k]].Directory?
    ensures WithChain(nodes, to, depth) == nodes
    decreases depth
  {
    if depth > 0 { ChainAlreadyThere(nodes, to, depth - 1); }
  }

  lemma {:induction false} ChainOfParent(nodes: map<Path, Kind>, to: Path, depth: nat)
    requires depth < |to|
    ensures WithChain(nodes, Parent(to), depth) == WithChain(nodes, to, depth)
    decreases depth
  {
    assert Parent(to)[..depth] == to[..depth];
    if depth > 0 { ChainOfParent(nodes, to, depth - 1); }
  }

  /** What is no directory can be made one exactly if it is missing. */
  lemma NotYetThere(nodes: map<Path, Kind>, to: Path, permitted: Path -> bool)
    requires !(to in nodes && nodes[to].Directory?)
    ensures Makeable(nodes, to, permitted) <==> to !in nodes && permitted(to)
  {
  }

  lemma ReachesDirectory(nodes: map<Path, Kind>, to: Path, permitted: Path -> bool)
    requires forall k :: 0 <= k <= |to| ==> to[..k] in nodes && nodes[to[..k]].Directory?
    ensures Reaches(nodes, to, permitted, |to|)
  {
  }

  lemma ReachesBelow(nodes: map<Path, Kind>, to: Path, permitted: Path -> bool, depth: nat)
    requires to != [] && Reaches(nodes, Parent(to), permitted, depth)
    ensures Reaches(nodes, to, permitted,
      if depth == |to| - 1 && Makeable(nodes, to, permitted) then |to| else depth)
    ensures depth <= |to| - 1 && to[..depth] == Parent(to)[..depth]
    ensures forall k :: 0 <= k < |to| ==> to[..k] == Parent(to)[..k]
  {
    assert to[..|to|] == to;
    forall k | 0 <= k < |to| ensures to[..k] == Parent(to)[..k] {}
  }
}
