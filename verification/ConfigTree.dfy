/** The configuration as a plain nested map, its XML form, and what a save
    followed by a load does to it (src/config.cpp, inc/config.hpp). */
module ConfigTree {
  import opened Common

  /** A node of libxml's DOM; comments and the like carry nothing of interest. */
  datatype Node = Element(name: string, children: seq<Node>) | Text(content: string) | Other

  /** What a configuration entry holds: a serialised value, or named entries. */
  datatype Tree = Leaf(data: string) | Branch(kids: map<string, Tree>)

  predicate IsBlank(s: string) {
    forall i :: 0 <= i < |s| ==> s[i] in " \t\n\r"
  }

  // ----- loading -----

  /** `get_child_text`: the content of the first text among the children. */
  function FirstText(children: seq<Node>): Option<string> {
    if children == [] then None
    else if children[0].Text? then Some(children[0].content)
    else FirstText(children[1..])
  }

  /** Whether a child element is read as a value rather than as a parent. */
  predicate ReadsAsValue(children: seq<Node>) {
    FirstText(children).Some? && !IsBlank(FirstText(children).value)
  }

  function Load(element: Node): Tree
    requires element.Element?
    decreases element, 0
  {
    if ReadsAsValue(element.children) then Leaf(FirstText(element.children).value)
    else Branch(LoadKids(element.children))
  }

  function LoadKids(children: seq<Node>): map<string, Tree>
    decreases children, 0
  {
    if children == [] then map[]
    else (if children[0].Element? then map[children[0].name := Load(children[0])] else map[]) + LoadKids(children[1..])
  }

  /** Whether an element holds a value is decided by its first text, at `i`, and a
      text is blank if it holds nothing but spaces, tabs, newlines and carriage
      returns: with any other character in it the element is a value, of exactly
      that text, and without one it is a parent. */
  lemma LoadIs(element: Node, i: nat)
    requires element.Element? && i < |element.children| && element.children[i].Text?
    requires forall j :: 0 <= j < i ==> !element.children[j].Text?
    ensures var text := element.children[i].content;
      if exists c :: c in text && c != ' ' && c != '\t' && c != '\n' && c != '\r' then Load(element) == Leaf(text)
      else Load(element) == Branch(LoadKids(element.children))
  {
    FirstTextIs(element.children, i);
    BlankIs(element.children[i].content);
  }

  /** An element in which every text is blank, or that has none, is a parent. */
  lemma BlankElementsAreParents(element: Node)
    requires element.Element?
    requires forall i :: 0 <= i < |element.children| && element.children[i].Text? ==>
      forall c :: c in element.children[i].content ==> c == ' ' || c == '\t' || c == '\n' || c == '\r'
    ensures Load(element) == Branch(LoadKids(element.children))
  {
    if k :| 0 <= k < |element.children| && element.children[k].Text? {
      var i := FirstTextAt(element.children, k);
      LoadIs(element, i);
    } else {
      NoText(element.children);
    }
  }

  lemma BlankIs(s: string)
    ensures IsBlank(s) <==> forall c :: c in s ==> c == ' ' || c == '\t' || c == '\n' || c == '\r'
  {
    assert forall c :: c in " \t\n\r" <==> c == ' ' || c == '\t' || c == '\n' || c == '\r';
    assert forall i :: 0 <= i < |s| ==> s[i] in s;
  }

  lemma {:induction false} FirstTextIs(children: seq<Node>, i: nat)
    requires i < |children| && children[i].Text? && forall j :: 0 <= j < i ==> !children[j].Text?
    ensures FirstText(children) == Some(children[i].content)
    decreases i
  {
    if i > 0 { FirstTextIs(children[1..], i - 1); }
  }

  lemma {:induction false} NoText(children: seq<Node>)
    requires forall i :: 0 <= i < |children| ==> !children[i].Text?
    ensures FirstText(children) == None
    decreases |children|
  {
    if children != [] { NoText(children[1..]); }
  }

  lemma {:induction false} FirstTextAt(children: seq<Node>, k: nat) returns (i: nat)
    requires k < |children| && children[k].Text?
    ensures i <= k && children[i].Text? && forall j :: 0 <= j < i ==> !children[j].Text?
    decreases k
  {
    i := k;
    if j :| 0 <= j < k && children[j].Text? { i := FirstTextAt(children, j); }
  }

  lemma MergeAssociates(a: map<string, Tree>, b: map<string, Tree>, c: map<string, Tree>)
    ensures (a + b) + c == a + (b + c)
  {
  }

  lemma {:induction false} LoadKidsAppend(a: seq<Node>, b: seq<Node>)
    ensures LoadKids(a + b) == LoadKids(a) + LoadKids(b)
    decreases |a|
  {
    if a == [] {
      assert a + b == b;
    } else {
      assert (a + b)[1..] == a[1..] + b;
      LoadKidsAppend(a[1..], b);
      var first := if a[0].Element? then map[a[0].name := Load(a[0])] else map[];
      MergeAssociates(first, LoadKids(a[1..]), LoadKids(b));
    }
  }

  /** One more child overwrites the entry of its name. */
  lemma LoadKidsStep(children: seq<Node>, i: nat)
    requires i < |children|
    ensures LoadKids(children[..i + 1]) ==
      if children[i].Element? then LoadKids(children[..i])[children[i].name := Load(children[i])]
      else LoadKids(children[..i])
  {
    assert children[..i + 1] == children[..i] + [children[i]];
    LoadKidsAppend(children[..i], [children[i]]);
    assert [children[i]][1..] == [];
  }

  /** Among child elements of the same name the last one wins, and nothing but
      child elements makes an entry. */
  lemma {:induction false} LastDuplicateWins(children: seq<Node>, name: string)
    ensures name in LoadKids(children) <==>
      exists i :: 0 <= i < |children| && children[i].Element? && children[i].name == name
    ensures forall i | 0 <= i < |children| && children[i].Element? && children[i].name == name &&
        (forall j :: i < j < |children| ==> !(children[j].Element? && children[j].name == name)) ::
      name in LoadKids(children) && LoadKids(children)[name] == Load(children[i])
    decreases |children|
  {
    if children != [] {
      var init, last := children[..|children| - 1], children[|children| - 1];
      assert children == init + [last];
      LoadKidsAppend(init, [last]);
      assert [last][1..] == [];
      LastDuplicateWins(init, name);
      assert forall i :: 0 <= i < |init| ==> init[i] == children[i];
    }
  }

  // ----- saving -----

  /** `nodes` are the elements that saving adds for the entries of `kids`: one
      for each, in whatever order the map is walked. */
  ghost predicate SavedAs(kids: map<string, Tree>, nodes: seq<Node>)
    decreases nodes, 0
  {
    if nodes == [] then kids == map[]
    else
      && nodes[0].Element? && nodes[0].name in kids
      && SavedEntry(kids[nodes[0].name], nodes[0])
      && SavedAs(kids - {nodes[0].name}, nodes[1..])
  }

  ghost predicate SavedEntry(t: Tree, node: Node)
    requires node.Element?
    decreases node, 0
  {
    match t
    case Leaf(data) => node.children == [Text(data)]
    case Branch(kids) => SavedAs(kids, node.children)
  }

  /** What saving adds: as many elements as there are entries, in any order, each
      named after another entry; a value as its text, a parent as its entries. */
  lemma {:induction false} SavedIs(kids: map<string, Tree>, nodes: seq<Node>)
    ensures SavedAs(kids, nodes) <==>
      && |nodes| == |kids|
      && (forall i :: 0 <= i < |nodes| ==> nodes[i].Element? && nodes[i].name in kids)
      && (forall i :: 0 <= i < |nodes| ==>
            var t := kids[nodes[i].name];
            if t.Leaf? then nodes[i].children == [Text(t.data)] else SavedAs(t.kids, nodes[i].children))
      && (forall i, j :: 0 <= i < j < |nodes| ==> nodes[i].name != nodes[j].name)
    decreases |nodes|
  {
    if nodes == [] {
      assert |kids| == 0 <==> kids == map[];
    } else {
      var first, rest := nodes[0], nodes[1..];
      assert nodes == [first] + rest;
      if first.Element? && first.name in kids {
        var others := kids - {first.name};
        assert kids.Keys == others.Keys + {first.name} && |kids| == |others| + 1;
        SavedIs(others, rest);
        assert forall i :: 0 <= i < |rest| ==> rest[i] == nodes[i + 1];
        assert forall i :: 1 <= i < |nodes| ==> nodes[i] == rest[i - 1];
      }
    }
  }

  lemma NothingSaved()
    ensures SavedAs(map[], [])
  {
  }

  lemma {:induction false} SavedAppend(kids: map<string, Tree>, nodes: seq<Node>, t: Tree, node: Node)
    requires SavedAs(kids, nodes) && node.Element? && node.name !in kids && SavedEntry(t, node)
    ensures SavedAs(kids[node.name := t], nodes + [node])
    decreases |nodes|
  {
    if nodes == [] {
      assert [node][1..] == [] && map[node.name := t] - {node.name} == map[];
    } else {
      var name := nodes[0].name;
      assert (nodes + [node])[1..] == nodes[1..] + [node];
      assert kids[node.name := t] - {name} == (kids - {name})[node.name := t];
      SavedAppend(kids - {name}, nodes[1..], t, node);
    }
  }

  // ----- the text in between -----

  predicate BlankTexts(children: seq<Node>) {
    forall i :: 0 <= i < |children| && children[i].Text? ==> IsBlank(children[i].content)
  }

  /** What writing the DOM as formatted text and parsing it again may do: in
      elements without non-blank text, blank text may come, go and merge;
      everything else stays. */
  ghost predicate Reformatted(x: Node, y: Node)
    decreases x, 0
  {
    match x
    case Element(name, children) =>
      && y.Element? && y.name == name
      && (BlankTexts(children) ==> BlankTexts(y.children))
      && ReformattedKids(children, y.children, BlankTexts(children))
    case _ => x == y
  }

  ghost predicate ReformattedKids(xs: seq<Node>, ys: seq<Node>, loose: bool)
    decreases xs, |ys|
  {
    if loose && xs != [] && xs[0].Text? then ReformattedKids(xs[1..], ys, loose)
    else if loose && ys != [] && ys[0].Text? then ReformattedKids(xs, ys[1..], loose)
    else if xs == [] || ys == [] then xs == ys
    else Reformatted(xs[0], ys[0]) && ReformattedKids(xs[1..], ys[1..], loose)
  }

  /** Among the children of an element without non-blank text, blank text may come
      in anywhere. */
  lemma {:induction false} BlankTextMayCome(name: string, xs: seq<Node>, ys: seq<Node>, p: nat, blank: string)
    requires forall i :: 0 <= i < |xs| && xs[i].Text? ==>
      forall c :: c in xs[i].content ==> c == ' ' || c == '\t' || c == '\n' || c == '\r'
    requires forall c :: c in blank ==> c == ' ' || c == '\t' || c == '\n' || c == '\r'
    requires Reformatted(Element(name, xs), Element(name, ys)) && p <= |ys|
    ensures Reformatted(Element(name, xs), Element(name, ys[..p] + [Text(blank)] + ys[p..]))
  {
    forall i | 0 <= i < |xs| && xs[i].Text? ensures IsBlank(xs[i].content) { BlankIs(xs[i].content); }
    BlankIs(blank);
    MoreBlankText(xs, ys, p, blank);
  }

  lemma {:induction false} MoreBlankText(xs: seq<Node>, ys: seq<Node>, p: nat, blank: string)
    requires ReformattedKids(xs, ys, true) && p <= |ys|
    ensures ReformattedKids(xs, ys[..p] + [Text(blank)] + ys[p..], true)
    decreases |xs|, |ys|
  {
    var more := ys[..p] + [Text(blank)] + ys[p..];
    if xs != [] && xs[0].Text? {
      MoreBlankText(xs[1..], ys, p, blank);
    } else if p == 0 {
      assert more[1..] == ys;
    } else {
      assert more[0] == ys[0] && more[1..] == ys[1..][..p - 1] + [Text(blank)] + ys[1..][p - 1..];
      if ys[0].Text? {
        MoreBlankText(xs, ys[1..], p - 1, blank);
      } else {
        MoreBlankText(xs[1..], ys[1..], p - 1, blank);
      }
    }
  }

  /** The children themselves may be reformatted one by one, and everything may
      stay as it is. */
  lemma {:induction false} ChildrenMayBeReformatted(name: string, xs: seq<Node>, ys: seq<Node>)
    requires |xs| == |ys| && forall i :: 0 <= i < |xs| ==> Reformatted(xs[i], ys[i])
    ensures Reformatted(Element(name, xs), Element(name, ys))
  {
    assert forall i :: 0 <= i < |ys| && ys[i].Text? ==> xs[i] == ys[i];
    KidsReformatted(xs, ys, BlankTexts(xs));
  }

  lemma {:induction false} KidsReformatted(xs: seq<Node>, ys: seq<Node>, loose: bool)
    requires |xs| == |ys| && forall i :: 0 <= i < |xs| ==> Reformatted(xs[i], ys[i])
    ensures ReformattedKids(xs, ys, loose)
    decreases |xs|
  {
    if xs != [] {
      assert Reformatted(xs[0], ys[0]);
      KidsReformatted(xs[1..], ys[1..], loose);
      if loose && xs[0].Text? {
        MoreBlankText(xs[1..], ys[1..], 0, xs[0].content);
        assert ys == ys[1..][..0] + [xs[0]] + ys[1..][0..];
      }
    }
  }

  lemma {:induction false} UnchangedIsReformatted(x: Node)
    ensures Reformatted(x, x)
    decreases x
  {
    if x.Element? {
      forall i | 0 <= i < |x.children| ensures Reformatted(x.children[i], x.children[i]) {
        UnchangedIsReformatted(x.children[i]);
      }
      ChildrenMayBeReformatted(x.name, x.children, x.children);
    }
  }

  // ----- load after save -----

  /** What is left of a tree: a blank value comes back as a childless parent. */
  function Normal(t: Tree): Tree
    decreases t
  {
    match t
    case Leaf(data) => if IsBlank(data) then Branch(map[]) else t
    case Branch(kids) => Branch(map k | k in kids :: Normal(kids[k]))
  }

  function NormalKids(kids: map<string, Tree>): map<string, Tree> {
    Normal(Branch(kids)).kids
  }

  /** Blank values become childless parents, and nothing else changes. */
  lemma NormalIs(t: Tree)
    ensures t.Leaf? ==>
      Normal(t) == if exists c :: c in t.data && c != ' ' && c != '\t' && c != '\n' && c != '\r' then t
                   else Branch(map[])
    ensures t.Branch? ==> Normal(t) == Branch(NormalKids(t.kids)) && NormalKids(t.kids).Keys == t.kids.Keys
    ensures t.Branch? ==> forall k :: k in t.kids ==> NormalKids(t.kids)[k] == Normal(t.kids[k])
  {
    if t.Leaf? { BlankIs(t.data); }
  }

  lemma NormalKid(kids: map<string, Tree>, key: string)
    requires key in kids
    ensures key in NormalKids(kids) && NormalKids(kids)[key] == Normal(kids[key])
  {
  }

  predicate Solid(t: Tree)
    decreases t
  {
    match t
    case Leaf(data) => !IsBlank(data)
    case Branch(kids) => forall k :: k in kids ==> Solid(kids[k])
  }

  lemma SolidIs(t: Tree)
    ensures t.Leaf? ==> (Solid(t) <==> exists c :: c in t.data && c != ' ' && c != '\t' && c != '\n' && c != '\r')
    ensures t.Branch? ==> (Solid(t) <==> forall k :: k in t.kids ==> Solid(t.kids[k]))
  {
    if t.Leaf? { BlankIs(t.data); }
  }

  lemma {:induction false} BlankTextIsNoValue(children: seq<Node>)
    requires BlankTexts(children)
    ensures !ReadsAsValue(children)
    decreases |children|
  {
    if children != [] && !children[0].Text? {
      forall i | 0 <= i < |children[1..]| && children[1..][i].Text? ensures IsBlank(children[1..][i].content) {
        assert children[1..][i] == children[i + 1];
      }
      BlankTextIsNoValue(children[1..]);
    }
  }

  lemma {:induction false} SavedNodesAreElements(kids: map<string, Tree>, nodes: seq<Node>)
    requires SavedAs(kids, nodes)
    ensures forall i :: 0 <= i < |nodes| ==> nodes[i].Element?
    decreases |nodes|
  {
    if nodes != [] {
      SavedNodesAreElements(kids - {nodes[0].name}, nodes[1..]);
    }
  }

  lemma {:induction false} KidsRoundTrip(kids: map<string, Tree>, nodes: seq<Node>, read: seq<Node>)
    requires SavedAs(kids, nodes) && ReformattedKids(nodes, read, true)
    ensures LoadKids(read) == NormalKids(kids)
    decreases nodes, |read|
  {
    if read != [] && read[0].Text? {
      KidsRoundTrip(kids, nodes, read[1..]);
    } else if nodes != [] {
      var name := nodes[0].name;
      EntryRoundTrip(kids[name], nodes[0], read[0]);
      KidsRoundTrip(kids - {name}, nodes[1..], read[1..]);
    }
  }

  lemma {:induction false} EntryRoundTrip(t: Tree, node: Node, read: Node)
    requires node.Element? && SavedEntry(t, node) && Reformatted(node, read)
    ensures Load(read) == Normal(t)
    decreases node, 0
  {
    match t
    case Leaf(data) =>
      if IsBlank(data) {
        BlankTextIsNoValue(read.children);
        assert node.children[1..] == [];
        assert SavedAs(map[], []);
        KidsRoundTrip(map[], [], read.children);
      } else {
        assert !BlankTexts(node.children) by { assert node.children[0].Text?; }
        assert node.children[1..] == [];
        assert ReformattedKids([], read.children[1..], false);
        assert Reformatted(Text(data), read.children[0]);
        assert read.children == [read.children[0]] + read.children[1..];
      }
    case Branch(kids) =>
      SavedNodesAreElements(kids, node.children);
      BlankTextIsNoValue(read.children);
      KidsRoundTrip(kids, node.children, read.children);
  }

  const ROOT_NAME := "sobby_config"

  /** Loading a saved document gives the tree back, with blank values turned
      into childless parents and under the fixed root name. */
  lemma SaveThenLoad(kids: map<string, Tree>, nodes: seq<Node>, read: Node)
    requires SavedAs(kids, nodes) && Reformatted(Element(ROOT_NAME, nodes), read)
    ensures read.Element? && read.name == ROOT_NAME == "sobby_config" && LoadKids(read.children) == NormalKids(kids)
  {
    SavedNodesAreElements(kids, nodes);
    KidsRoundTrip(kids, nodes, read.children);
  }

  /** The round trip is exact for the trees without blank values, and for no others. */
  lemma {:induction false} NormalExactlyWhenSolid(t: Tree)
    ensures Normal(t) == t <==> Solid(t)
    decreases t
  {
    if t.Branch? {
      forall k | k in t.kids ensures Normal(t.kids[k]) == t.kids[k] <==> Solid(t.kids[k]) {
        NormalExactlyWhenSolid(t.kids[k]);
      }
      if Normal(t) == t {
        forall k | k in t.kids ensures Solid(t.kids[k]) {
          assert Normal(t).kids[k] == Normal(t.kids[k]);
        }
      }
      if Solid(t) {
        assert Normal(t).kids == t.kids;
      }
    }
  }

  lemma {:induction false} LoadedIsSolid(children: seq<Node>)
    ensures Solid(Branch(LoadKids(children)))
    decreases children, 0
  {
    if children != [] {
      LoadedIsSolid(children[1..]);
      if children[0].Element? {
        LoadedIsSolid(children[0].children);
      }
    }
  }

  /** Loading canonicalises: whatever document is loaded, saving the result and
      loading that changes nothing more. */
  lemma LoadIsCanonical(root: Node, nodes: seq<Node>, read: Node)
    requires root.Element? && SavedAs(LoadKids(root.children), nodes) && Reformatted(Element(ROOT_NAME, nodes), read)
    ensures read.Element? && LoadKids(read.children) == LoadKids(root.children)
  {
    var kids := LoadKids(root.children);
    SaveThenLoad(kids, nodes, read);
    LoadedIsSolid(root.children);
    NormalExactlyWhenSolid(Branch(kids));
  }
}
