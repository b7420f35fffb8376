/** The configuration and its file (src/config.cpp:266-327). */
module ConfigFile {
  import opened Common
  import opened ConfigTree
  import opened ConfigEntry
  import opened CreatePathModel

  /** What the XML parser makes of a file; a document need not have a root. */
  datatype ParseResult = Unparsable | Document(root: Option<Node>)

  class Config {
    var m_root: ParentEntry

    ghost predicate Valid() reads this, m_root, m_root.Repr {
      m_root.Valid()
    }

    constructor ()
      ensures Valid() && fresh(m_root) && fresh(m_root.Repr)
      ensures m_root.name == "sobby_config" && m_root.kids == map[]
    {
      m_root := new ParentEntry(ROOT_NAME);
    }

    /** The loading constructor, given the root element of a document. */
    constructor FromRoot(root: Node)
      requires root.Element?
      ensures Valid() && fresh(m_root) && fresh(m_root.Repr)
      ensures m_root.name == root.name && m_root.kids == LoadKids(root.children)
    {
      m_root := new ParentEntry.FromElement(root);
    }

    /** Saves below the fixed root name, whatever the loaded root was called, once
        the directory is there and if the file can then be written; otherwise
        there are only warnings. */
    method Save(files: FileSystem, dirname: Path, permitted: Path -> bool, writable: bool)
        returns (document: Option<Node>, ghost depth: nat)
      requires Valid() && files.Valid() && files !in m_root.Repr
      modifies files
      ensures files.Valid()
      ensures Reaches(old(files.nodes), dirname, permitted, depth)
      ensures files.nodes == WithChain(old(files.nodes), dirname, depth)
      ensures document.Some? ==> document.value.Element? && document.value.name == "sobby_config"
      ensures document.Some? ==> SavedAs(m_root.kids, document.value.children) && files.IsDirectory(dirname)
      ensures document.Some? <==> writable && old(Reaches(files.nodes, dirname, permitted, |dirname|))
    {
      var nodes := m_root.Save();
      ghost var before := files.nodes;
      var ok;
      ok, depth := files.CreatePathTo(dirname, permitted);
      DepthIsUnique(before, dirname, permitted, depth);
      if !ok || !writable {
        return None, depth;
      }
      ChainIs(before, dirname, depth);
      assert dirname[..|dirname|] == dirname;
      document := Some(Element(ROOT_NAME, nodes));
    }
  }

  lemma DepthIsUnique(nodes: map<Path, Kind>, to: Path, permitted: Path -> bool, depth: nat)
    requires Reaches(nodes, to, permitted, depth)
    ensures depth == |to| <==> Reaches(nodes, to, permitted, |to|)
  {
    if depth < |to| { assert !Makeable(nodes, to[..depth + 1], permitted); }
  }

  /** `None` where the constructor throws because the file cannot be parsed. */
  method LoadConfig(parsed: ParseResult) returns (config: Option<Config>)
    requires parsed.Document? && parsed.root.Some? ==> parsed.root.value.Element?
    ensures config.None? <==> parsed.Unparsable?
    ensures config.Some? ==> config.value.Valid() && fresh(config.value) && fresh(config.value.m_root.Repr)
    ensures config.Some? && parsed.root.Some? ==>
      && config.value.m_root.kids == LoadKids(parsed.root.value.children)
      && config.value.m_root.name == parsed.root.value.name
    ensures config.Some? && parsed.root.None? ==>
      config.value.m_root.kids == map[] && config.value.m_root.name == "sobby_config"
  {
    if parsed.Unparsable? {
      return None;
    }
    var c: Config;
    if parsed.root.None? {
      c := new Config();
    } else {
      c := new Config.FromRoot(parsed.root.value);
    }
    config := Some(c);
  }

  /** A configuration that is saved, written as formatted text, parsed and loaded
      is the same up to blank values; `text` is what writing and parsing make of
      a document. */
  method SaveAndReload(config: Config, files: FileSystem, dirname: Path, permitted: Path -> bool, writable: bool,
                       text: Node -> Node)
      returns (again: Option<Config>)
    requires config.Valid() && files.Valid() && files !in config.m_root.Repr
    requires forall x: Node :: Reformatted(x, text(x))
    modifies files
    ensures again.Some? <==> writable && old(Reaches(files.nodes, dirname, permitted, |dirname|))
    ensures again.Some? ==> again.value.Valid() && again.value.m_root.name == "sobby_config"
    ensures again.Some? ==> again.value.m_root.kids == NormalKids(config.m_root.kids)
  {
    var document, _ := config.Save(files, dirname, permitted, writable);
    if document.None? {
      return None;
    }
    var read := text(document.value);
    assert document.value == Element(ROOT_NAME, document.value.children) && Reformatted(document.value, read);
    SaveThenLoad(config.m_root.kids, document.value.children, read);
    again := LoadConfig(Document(Some(read)));
  }
}
