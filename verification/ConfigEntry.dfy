/** The mutable tree of configuration entries (src/config.cpp:135-242,
    inc/config.hpp:398-433): parents own their entries through a map, and
    setting an entry deletes the one it replaces. */
module ConfigEntry {
  import opened Common
  import opened ConfigTree

  type Kids = map<string, Tree>

  datatype Entry = ValueEntry(name: string, data: string) | Parent(entry: ParentEntry)

  /** The calls that change a parent's own entries. */
  datatype Edit = SetValue(data: string) | SetParent | Index | SupplyValue(data: string)

  function Edited(kids: Kids, name: string, edit: Edit): Kids {
    match edit
    case SetValue(data) => kids[name := Leaf(data)]
    case SetParent => kids[name := Branch(map[])]
    case Index => if name in kids && kids[name].Branch? then kids else kids[name := Branch(map[])]
    case SupplyValue(data) => if name in kids && kids[name].Leaf? then kids else kids[name := Leaf(data)]
  }

  function StringAt(kids: Kids, name: string, default: string): string {
    if name in kids && kids[name].Leaf? then kids[name].data else default
  }

  function NumberAt(kids: Kids, name: string, default: int, parse: string -> Option<int>): Option<int> {
    if name in kids && kids[name].Leaf? then parse(kids[name].data) else Some(default)
  }

  /** An edit under the parent reached by indexing along `path`. */
  function EditedAt(kids: Kids, path: seq<string>, name: string, edit: Edit): Kids
    decreases |path|
  {
    if path == [] then Edited(kids, name, edit)
    else
      var indexed := Edited(kids, path[0], Index);
      indexed[path[0] := Branch(EditedAt(indexed[path[0]].kids, path[1..], name, edit))]
  }

  function EditedAll(kids: Kids, edits: seq<(seq<string>, string, Edit)>): Kids {
    if edits == [] then kids
    else
      var (path, name, edit) := edits[|edits| - 1];
      EditedAt(EditedAll(kids, edits[..|edits| - 1]), path, name, edit)
  }

  function Lookup(t: Tree, path: seq<string>): Option<Tree>
    decreases |path|
  {
    if path == [] then Some(t)
    else if t.Branch? && path[0] in t.kids then Lookup(t.kids[path[0]], path[1..])
    else None
  }

  /** Following a path, name by name. */
  lemma LookupIs(t: Tree, name: string, rest: seq<string>)
    ensures Lookup(t, []) == Some(t)
    ensures Lookup(t, [name] + rest) == if t.Branch? && name in t.kids then Lookup(t.kids[name], rest) else None
  {
    assert ([name] + rest)[1..] == rest;
  }

  /** Neither path leads through the end of the other. */
  predicate Diverge(p: seq<string>, q: seq<string>)
    decreases |p|
  {
    p != [] && q != [] && (p[0] != q[0] || Diverge(p[1..], q[1..]))
  }

  lemma {:induction false} DivergeIs(p: seq<string>, q: seq<string>)
    ensures Diverge(p, q) <==> exists i :: 0 <= i < |p| && i < |q| && p[i] != q[i]
    decreases |p|
  {
    if p != [] && q != [] {
      DivergeIs(p[1..], q[1..]);
      if i :| 0 <= i < |p| && i < |q| && p[i] != q[i] {
        if i > 0 { assert p[1..][i - 1] != q[1..][i - 1]; }
      }
      if i :| 0 <= i < |p[1..]| && i < |q[1..]| && p[1..][i] != q[1..][i] {
        assert p[i + 1] != q[i + 1];
      }
    }
  }

  /** Edits happen one after the other. */
  lemma EditedAllIs(kids: Kids, edits: seq<(seq<string>, string, Edit)>, path: seq<string>, name: string, edit: Edit)
    ensures EditedAll(kids, []) == kids
    ensures EditedAll(kids, edits + [(path, name, edit)]) == EditedAt(EditedAll(kids, edits), path, name, edit)
  {
    assert (edits + [(path, name, edit)])[..|edits|] == edits;
  }

  /** An edit changes nothing off the way to the entry it names, creates the way
      to it, and leaves there what it was asked for. */
  lemma {:induction false} EditIsLocal(kids: Kids, path: seq<string>, name: string, edit: Edit, q: seq<string>)
    requires Diverge(path + [name], q)
    ensures Lookup(Branch(EditedAt(kids, path, name, edit)), q) == Lookup(Branch(kids), q)
    decreases |path|
  {
    if path == [] {
      assert (path + [name])[1..] == [];
    } else {
      assert (path + [name])[1..] == path[1..] + [name];
      if path[0] == q[0] {
        var indexed := Edited(kids, path[0], Index);
        EditIsLocal(indexed[path[0]].kids, path[1..], name, edit, q[1..]);
      }
    }
  }

  /** What an edit leaves under its name, given what was there. */
  function Outcome(before: Option<Tree>, edit: Edit): Tree {
    match edit
    case SetValue(data) => Leaf(data)
    case SetParent => Branch(map[])
    case Index => if before.Some? && before.value.Branch? then before.value else Branch(map[])
    case SupplyValue(data) => if before.Some? && before.value.Leaf? then before.value else Leaf(data)
  }

  lemma {:induction false} EditTakesEffect(kids: Kids, path: seq<string>, name: string, edit: Edit)
    ensures Lookup(Branch(EditedAt(kids, path, name, edit)), path + [name]) ==
      Some(Outcome(Lookup(Branch(kids), path + [name]), edit))
    ensures var before := Lookup(Branch(kids), path + [name]);
      var after := Lookup(Branch(EditedAt(kids, path, name, edit)), path + [name]);
      match edit
      case SetValue(data) => after == Some(Leaf(data))
      case SetParent => after == Some(Branch(map[]))
      case Index => after == if before.Some? && before.value.Branch? then before else Some(Branch(map[]))
      case SupplyValue(data) => after == if before.Some? && before.value.Leaf? then before else Some(Leaf(data))
    decreases |path|
  {
    if path == [] {
      assert (path + [name])[1..] == [];
    } else {
      assert (path + [name])[1..] == path[1..] + [name];
      EditTakesEffect(Edited(kids, path[0], Index)[path[0]].kids, path[1..], name, edit);
    }
  }

  class ParentEntry {
    const name: string
    var m_map: map<string, Entry>
    ghost var Repr: set<object>
    ghost var kids: Kids

    /** The entries form a tree that holds exactly `kids`: every key is its
        entry's own name and the subtrees are disjoint. */
    ghost predicate Valid()
      reads this, Repr
      ensures Valid() ==> this in Repr
      decreases Repr, 1
    {
      && this in Repr
      && m_map.Keys == kids.Keys
      && (forall k :: k in m_map ==> Contains(m_map[k]) && EntryOk(k, m_map[k], kids[k]))
      && (forall k, l :: k in m_map && l in m_map && k != l ==> SubRepr(m_map[k]) !! SubRepr(m_map[l]))
    }

    ghost predicate Contains(entry: Entry)
      reads this, Repr
    {
      entry.Parent? ==> entry.entry in Repr && SubRepr(entry) <= Repr - {this}
    }

    static ghost predicate EntryOk(key: string, entry: Entry, t: Tree)
      reads if entry.Parent? then {entry.entry} else {}, SubRepr(entry)
      decreases SubRepr(entry), 2
    {
      match entry
      case ValueEntry(n, data) => n == key && t == Leaf(data)
      case Parent(c) => c.name == key && t == Branch(c.kids) && c.Valid()
    }

    /** The objects of the subtree under an entry. */
    static ghost function SubRepr(entry: Entry): set<object>
      reads if entry.Parent? then {entry.entry} else {}
    {
      if entry.Parent? then entry.entry.Repr else {}
    }

    ghost function TreeOf(entry: Entry): Tree
      reads if entry.Parent? then {entry.entry} else {}
    {
      match entry
      case ValueEntry(_, data) => Leaf(data)
      case Parent(c) => Branch(c.kids)
    }

    ghost function SubReprAt(key: string): set<object>
      reads this, Repr
      requires Valid()
    {
      if key in m_map then assert Contains(m_map[key]); SubRepr(m_map[key]) else {}
    }

    constructor (name: string)
      ensures Valid() && this.name == name && m_map == map[] && kids == map[] && Repr == {this}
    {
      this.name, m_map, kids, Repr := name, map[], map[], {this};
    }

    /** The loading constructor. */
    constructor FromElement(element: Node)
      requires element.Element?
      ensures Valid() && fresh(Repr) && this.name == element.name && kids == LoadKids(element.children)
      decreases element
    {
      name, m_map, kids, Repr := element.name, map[], map[], {this};
      new;
      hide Valid, LoadKids, ReadsAsValue, FirstText;
      var list := element.children;
      for i := 0 to |list|
        invariant Valid() && fresh(Repr) && kids == LoadKids(list[..i])
      {
        LoadKidsStep(list, i);
        var child := list[i];
        if child.Element? {
          if ReadsAsValue(child.children) {
            Put(child.name, ValueEntry(child.name, FirstText(child.children).value));
          } else {
            var entry := new ParentEntry.FromElement(child);
            Put(child.name, Parent(entry));
          }
        }
      }
      assert list[..|list|] == list;
    }

    /** The elements that saving adds, one for each entry. */
    method Save() returns (nodes: seq<Node>)
      requires Valid()
      ensures SavedAs(kids, nodes)
      decreases Repr
    {
      hide Valid, SavedAs;
      nodes := [];
      NothingSaved();
      OwnEntries();
      assert kids - m_map.Keys == map[];
      var rest := m_map.Keys;
      while rest != {}
        invariant rest <= m_map.Keys
        invariant SavedAs(kids - rest, nodes)
        decreases rest
      {
        var k :| k in rest;
        OwnEntry(k);
        var content;
        match m_map[k] {
          case ValueEntry(_, data) => content := [Text(data)];
          case Parent(entry) => content := entry.Save();
        }
        var child := Element(k, content);
        SavedAppend(kids - rest, nodes, kids[k], child);
        assert (kids - rest)[k := kids[k]] == kids - (rest - {k});
        rest := rest - {k};
        nodes := nodes + [child];
      }
      assert kids - rest == kids;
    }

    method GetChild(name: string) returns (entry: Option<Entry>)
      requires Valid()
      ensures entry == if name in m_map then Some(m_map[name]) else None
      ensures entry.Some? <==> name in kids
      ensures entry.Some? ==> (entry.value.Parent? <==> kids[name].Branch?)
    {
      entry := if name in m_map then Some(m_map[name]) else None;
      assert name in m_map ==> EntryOk(name, m_map[name], kids[name]);
    }

    method GetParentChild(name: string) returns (child: ParentEntry?)
      requires Valid()
      ensures child != null <==> name in kids && kids[name].Branch?
      ensures child != null ==> name in m_map && m_map[name] == Parent(child)
    {
      var entry := GetChild(name);
      child := if entry.Some? && entry.value.Parent? then entry.value.entry else null;
    }

    method GetValueChild(name: string) returns (data: Option<string>)
      requires Valid()
      ensures data == if name in kids && kids[name].Leaf? then Some(kids[name].data) else None
    {
      var entry := GetChild(name);
      assert name in m_map ==> EntryOk(name, m_map[name], kids[name]);
      data := if entry.Some? && entry.value.ValueEntry? then Some(entry.value.data) else None;
    }

    /** `get_value` of a string. */
    method GetValue(name: string, default: string) returns (data: string)
      requires Valid()
      ensures data == StringAt(kids, name, default)
      ensures data == if name in kids && kids[name].Leaf? then kids[name].data else default
    {
      var entry := GetValueChild(name);
      data := if entry.None? then default else entry.value;
    }

    /** `get_value` of a number; `None` where the conversion throws. */
    method GetNumber(name: string, default: int, parse: string -> Option<int>) returns (number: Option<int>)
      requires Valid()
      ensures number == NumberAt(kids, name, default, parse)
      ensures number == if name in kids && kids[name].Leaf? then parse(kids[name].data) else Some(default)
    {
      var entry := GetValueChild(name);
      number := if entry.None? then Some(default) else parse(entry.value);
    }

    method SupplyValue(name: string, default: string) returns (data: string)
      requires Valid()
      modifies this
      ensures Valid() && kids == Edited(old(kids), name, Edit.SupplyValue(default))
      ensures if name in old(kids) && old(kids)[name].Leaf? then data == old(kids)[name].data && kids == old(kids)
              else data == default && kids == old(kids)[name := Leaf(default)]
      ensures kids[name] == Leaf(data) && Repr == old(Repr) - old(SubReprAt(name))
    {
      var entry := GetValueChild(name);
      if entry.Some? {
        assert EntryOk(name, m_map[name], kids[name]);
        return entry.value;
      }
      SetValue(name, default);
      return default;
    }

    /** `operator[]` */
    method Index(name: string) returns (child: ParentEntry)
      requires Valid()
      modifies this
      ensures Valid() && kids == Edited(old(kids), name, Edit.Index)
      ensures kids == if name in old(kids) && old(kids)[name].Branch? then old(kids)
                      else old(kids)[name := Branch(map[])]
      ensures name in m_map && m_map[name] == Parent(child) && child.Valid()
      ensures Repr == old(Repr) + {child} && (child in old(Repr) || fresh(child))
      ensures old(name in m_map && m_map[name].Parent?) ==> unchanged(this)
    {
      assert name in m_map ==> EntryOk(name, m_map[name], kids[name]);
      var entry := GetParentChild(name);
      if entry != null {
        assert EntryOk(name, m_map[name], kids[name]);
        return entry;
      }
      assert old(SubReprAt(name)) == {};
      child := SetParent(name);
    }

    /** `m_map[name] = entry`: what was under `name` is no longer part of the tree. */
    method Put(name: string, entry: Entry)
      requires Valid() && (entry.ValueEntry? ==> entry.name == name)
      requires entry.Parent? ==> entry.entry.Valid() && entry.entry.Repr !! Repr && entry.entry.name == name
      modifies this
      ensures Valid() && kids == old(kids)[name := TreeOf(entry)] && m_map == old(m_map)[name := entry]
      ensures Repr == old(Repr) - old(SubReprAt(name)) + SubRepr(entry)
    {
      hide Valid, EntryOk, SubReprAt;
      ghost var gone := SubReprAt(name);
      Apart(name);
      m_map := m_map[name := entry];
      kids, Repr := kids[name := TreeOf(entry)], Repr - gone + SubRepr(entry);
      forall k | k in m_map && k != name
        ensures k in old(m_map) && SubRepr(m_map[k]) == old(SubRepr(m_map[k])) && SubRepr(m_map[k]) !! SubRepr(entry)
      {
      }
      forall k | k in m_map && k != name ensures Contains(m_map[k]) && EntryOk(k, m_map[k], kids[k]) {}
      NewEntryOk(name, entry);
      Reassembled(name);
    }

    method SetValue(name: string, data: string)
      requires Valid()
      modifies this
      ensures Valid() && kids == old(kids)[name := Leaf(data)]
      ensures Repr == old(Repr) - old(SubReprAt(name))
    {
      Put(name, ValueEntry(name, data));
    }

    method SetParent(name: string) returns (child: ParentEntry)
      requires Valid()
      modifies this
      ensures Valid() && kids == old(kids)[name := Branch(map[])]
      ensures fresh(child) && Repr == old(Repr) - old(SubReprAt(name)) + {child}
      ensures name in m_map && m_map[name] == Parent(child) && child.Valid()
    {
      child := new ParentEntry(name);
      Put(name, Parent(child));
    }

    /** The objects that an edit under the parent at `path` deletes. */
    ghost function Deleted(path: seq<string>, name: string, edit: Edit): set<object>
      requires Valid()
      reads this, Repr
      decreases |path|
    {
      if path == [] then (if edit.Index? then {} else SubReprAt(name))
      else if path[0] in m_map && m_map[path[0]].Parent? then
        assert Contains(m_map[path[0]]) && EntryOk(path[0], m_map[path[0]], kids[path[0]]);
        m_map[path[0]].entry.Deleted(path[1..], name, edit)
      else {}
    }

    /** What a client does who indexes along a path and calls the parent found
        there. Whatever is not fresh and not in the tree stays out of it, so a
        deleted entry is never reachable again. */
    method EditAt(path: seq<string>, name: string, edit: Edit)
      requires Valid()
      modifies Repr
      ensures Valid() && kids == EditedAt(old(kids), path, name, edit)
      ensures fresh(Repr - old(Repr)) && old(Deleted(path, name, edit)) !! Repr
      decreases |path|, 0
    {
      hide Valid, EntryOk, Deleted;
      DeletedIs(path, name, edit);
      if path == [] {
        EditHere(name, edit);
      } else {
        if path[0] in m_map { OwnEntry(path[0]); }
        var child := Index(path[0]);
        OwnEntry(path[0]);
        EditBelow(path[0], child, path[1..], name, edit);
      }
    }

    /** Any sequence of edits anywhere in the tree. `gone` holds what each edit
        deletes: none of it is in the tree in the end. As that is said of the
        first edit of every sequence, it holds of an edit at any point, whatever
        edits follow. */
    method EditAll(edits: seq<(seq<string>, string, Edit)>) returns (ghost gone: seq<set<object>>)
      requires Valid()
      modifies Repr
      ensures Valid() && kids == EditedAll(old(kids), edits)
      ensures fresh(Repr - old(Repr))
      ensures |gone| == |edits| && forall i :: 0 <= i < |gone| ==> gone[i] !! Repr
      ensures edits != [] ==> gone[0] == old(Deleted(edits[0].0, edits[0].1, edits[0].2))
    {
      hide Valid, Deleted;
      assert edits[..|edits|] == edits;
      gone := [];
      for i := 0 to |edits|
        invariant Valid() && kids == EditedAll(old(kids), edits[..i])
        invariant fresh(Repr - old(Repr))
        invariant i == 0 ==> Repr == old(Repr) && unchanged(old(Repr))
        invariant |gone| == i && forall j :: 0 <= j < i ==> gone[j] !! Repr && forall o :: o in gone[j] ==> allocated(o)
        invariant i > 0 ==> gone[0] == old(Deleted(edits[0].0, edits[0].1, edits[0].2))
      {
        ghost var path, name, edit := edits[i].0, edits[i].1, edits[i].2;
        DeletedIsInside(path, name, edit);
        gone := gone + [Deleted(path, name, edit)];
        EditAt(edits[i].0, edits[i].1, edits[i].2);
        assert edits[..i + 1][..i] == edits[..i];
      }
    }

    method EditBelow(k: string, child: ParentEntry, path: seq<string>, name: string, edit: Edit)
      requires Valid() && k in m_map && m_map[k] == Parent(child) && child.Valid()
      modifies Repr
      ensures Valid() && kids == old(kids)[k := Branch(EditedAt(old(child.kids), path, name, edit))]
      ensures fresh(Repr - old(Repr)) && old(child.Deleted(path, name, edit)) !! Repr
      decreases |path|, 1
    {
      hide Valid, EntryOk, EditedAt;
      OwnEntry(k);
      Apart(k);
      child.DeletedIsInside(path, name, edit);
      ghost var gone := child.Repr;
      assert gone == SubReprAt(k);
      child.EditAt(path, name, edit);
      assert unchanged(this);
      kids, Repr := kids[k := Branch(child.kids)], Repr - gone + child.Repr;
      forall l | l in m_map && l != k
        ensures SubRepr(m_map[l]) == old(SubRepr(m_map[l])) && SubRepr(m_map[l]) !! gone + child.Repr
      {
      }
      forall l | l in m_map && l != k ensures Contains(m_map[l]) && EntryOk(l, m_map[l], kids[l]) {}
      NewEntryOk(k, Parent(child));
      Reassembled(k);
    }

    /** All entries are in order if the one under `k` is and the others are. */
    lemma Reassembled(k: string)
      requires this in Repr && m_map.Keys == kids.Keys && k in m_map
      requires Contains(m_map[k]) && EntryOk(k, m_map[k], kids[k])
      requires forall l :: l in m_map && l != k ==>
        Contains(m_map[l]) && EntryOk(l, m_map[l], kids[l]) && SubRepr(m_map[l]) !! SubRepr(m_map[k])
      requires forall l, m :: l in m_map && m in m_map && k != l && k != m && l != m ==>
        SubRepr(m_map[l]) !! SubRepr(m_map[m])
      ensures Valid()
    {
    }

    lemma DeletedIsInside(path: seq<string>, name: string, edit: Edit)
      requires Valid()
      ensures Deleted(path, name, edit) <= Repr
      decreases |path|
    {
      if path == [] {
        Apart(name);
        if name in m_map { OwnEntry(name); }
      } else if path[0] in m_map && m_map[path[0]].Parent? {
        OwnEntry(path[0]);
        m_map[path[0]].entry.DeletedIsInside(path[1..], name, edit);
      }
    }

    method EditHere(name: string, edit: Edit)
      requires Valid()
      modifies this
      ensures Valid() && kids == Edited(old(kids), name, edit)
      ensures fresh(Repr - old(Repr)) && old(Deleted([], name, edit)) !! Repr
    {
      match edit {
        case SetValue(data) => SetValue(name, data);
        case SetParent => var _ := SetParent(name);
        case Index => var _ := Index(name);
        case SupplyValue(data) => var _ := SupplyValue(name, data);
      }
    }

    lemma NewEntryOk(k: string, entry: Entry)
      requires if entry.Parent? then entry.entry.Valid() && entry.entry.name == k else entry.name == k
      ensures EntryOk(k, entry, TreeOf(entry))
    {
    }

    /** The shape of the tree, in plain terms: each key is its entry's name, the
        subtrees are parts of it and share no object, and it holds what it is said
        to hold. */
    lemma ValidIs()
      requires Valid()
      ensures this in Repr && m_map.Keys == kids.Keys
      ensures forall k :: k in m_map && m_map[k].ValueEntry? ==>
        m_map[k].name == k && kids[k] == Leaf(m_map[k].data) && SubReprAt(k) == {}
      ensures forall k :: k in m_map && m_map[k].Parent? ==>
        && m_map[k].entry.Valid() && m_map[k].entry.name == k && kids[k] == Branch(m_map[k].entry.kids)
        && m_map[k].entry.Repr <= Repr - {this} && SubReprAt(k) == m_map[k].entry.Repr
      ensures forall k, l :: k in m_map && l in m_map && k != l && m_map[k].Parent? && m_map[l].Parent? ==>
        m_map[k].entry.Repr !! m_map[l].entry.Repr
    {
      forall k | k in m_map ensures Contains(m_map[k]) && EntryOk(k, m_map[k], kids[k]) { OwnEntry(k); }
      assert forall k, l :: k in m_map && l in m_map && k != l ==> SubRepr(m_map[k]) !! SubRepr(m_map[l]);
    }

    /** What an edit deletes: the subtree that it replaces at the end of its path. */
    lemma DeletedIs(path: seq<string>, name: string, edit: Edit)
      requires Valid()
      ensures path == [] && !edit.Index? ==> Deleted(path, name, edit) == SubReprAt(name)
      ensures path == [] && edit.Index? ==> Deleted(path, name, edit) == {}
      ensures path != [] && path[0] in m_map && m_map[path[0]].Parent? ==>
        m_map[path[0]].entry.Valid() &&
        Deleted(path, name, edit) == m_map[path[0]].entry.Deleted(path[1..], name, edit)
      ensures path != [] && !(path[0] in m_map && m_map[path[0]].Parent?) ==> Deleted(path, name, edit) == {}
    {
      if path != [] && path[0] in m_map { OwnEntry(path[0]); }
    }

    lemma OwnEntries()
      requires Valid()
      ensures m_map.Keys == kids.Keys
    {
    }

    lemma OwnEntry(k: string)
      requires Valid() && k in m_map
      ensures this in Repr && k in kids && Contains(m_map[k]) && EntryOk(k, m_map[k], kids[k])
      ensures m_map[k].Parent? ==>
        m_map[k].entry.name == k && kids[k] == Branch(m_map[k].entry.kids) && m_map[k].entry.Valid()
    {
    }

    /** The entry under `name` shares no object with the others or with `this`. */
    lemma Apart(name: string)
      requires Valid()
      ensures m_map.Keys == kids.Keys && this in Repr && this !in SubReprAt(name)
      ensures forall k, l :: k in m_map && l in m_map && k != l ==> SubRepr(m_map[k]) !! SubRepr(m_map[l])
      ensures forall k :: k in m_map && m_map[k].Parent? ==> m_map[k].entry in SubRepr(m_map[k])
      ensures forall k :: k in m_map && k != name ==>
        Contains(m_map[k]) && EntryOk(k, m_map[k], kids[k]) && SubRepr(m_map[k]) !! SubReprAt(name)
    {
      if name in m_map { assert EntryOk(name, m_map[name], kids[name]); }
    }
  }
}
