/** The cgroup tree as it is built: internal/pkg/cgroups/cgroups.go (Find, Parse as an
    abstract effect) and internal/pkg/cgroups/tar.go. */
module CgroupTree {
  import opened Wrappers
  import opened Text

  type Path = seq<string>

  /** The parsed properties of a node, by file name; the values stay abstract. */
  type Property = int
  type Properties = map<string, Property>

  class Node {
    var children: map<string, Node>
    var props: Properties

    constructor ()
      ensures children == map[] && props == map[]
    {
      children, props := map[], map[];
    }
  }

  // ---------------------------------------------------------------- paths

  predicate Stops(component: string) {
    component == "." || component == ""
  }

  /** The components before the first empty or "." one. */
  function Normal(parts: seq<string>): Path {
    if parts == [] || Stops(parts[0]) then [] else [parts[0]] + Normal(parts[1..])
  }

  function Normalise(directoryPath: string): Path {
    Normal(Split(directoryPath, '/'))
  }

  lemma {:induction false} NormalPrefix(parts: seq<string>, k: nat)
    requires k <= |parts| && forall j :: 0 <= j < k ==> !Stops(parts[j])
    ensures k == |parts| || Stops(parts[k]) ==> Normal(parts) == parts[..k]
  {
    if k > 0 {
      NormalPrefix(parts[1..], k - 1);
      assert parts[1..][..k - 1] == parts[1..k];
    }
  }

  /** The longest run of proper names at the front; nothing behind an empty or "." component counts. */
  lemma NormaliseMeaning(directoryPath: string)
    ensures var parts, q := Split(directoryPath, '/'), Normalise(directoryPath);
      && q <= parts
      && (forall c :: c in q ==> c != "" && c != "." && '/' !in c)
      && (|q| < |parts| ==> parts[|q|] == "" || parts[|q|] == ".")
  {
    var parts := Split(directoryPath, '/');
    PartsHaveNoSeparator(directoryPath, '/');
    NormalMeaning(parts);
  }

  lemma {:induction false} NormalMeaning(parts: seq<string>)
    ensures var q := Normal(parts);
      && q <= parts
      && (forall c :: c in q ==> c in parts && c != "" && c != ".")
      && (|q| < |parts| ==> parts[|q|] == "" || parts[|q|] == ".")
  {
    if parts != [] && parts[0] != "" && parts[0] != "." {
      NormalMeaning(parts[1..]);
      assert parts == [parts[0]] + parts[1..];
    }
  }

  predicate IsPrefix(p: Path, q: Path) {
    |p| <= |q| && p == q[..|p|]
  }

  function Prefixes(q: Path): (r: set<Path>)
    ensures forall p :: p in r <==> IsPrefix(p, q)
  {
    set k | 0 <= k <= |q| :: q[..k]
  }

  /** The path of a child. */
  function Sub(p: Path, component: string): Path {
    p + [component]
  }

  lemma SubInjective(p: Path, component: string)
    ensures forall q: Path, c :: Sub(q, c) == Sub(p, component) ==> q == p && c == component
    ensures Sub(p, component) != []
  {
    forall q: Path, c | Sub(q, c) == Sub(p, component)
      ensures q == p && c == component
    {
      assert Sub(q, c)[..|q|] == q && Sub(p, component)[..|p|] == p;
      assert Sub(q, c)[|q|] == c && Sub(p, component)[|p|] == component;
    }
  }

  /** The tree as a flat map from path to properties. */
  type View = map<Path, Properties>

  /** A lookup adds the nodes on the way, without properties. */
  function Touch(v: View, q: Path): View {
    map p | p in v.Keys + Prefixes(q) :: if p in v then v[p] else map[]
  }

  function Touch1(v: View, p: Path): View {
    if p in v then v else v[p := map[]]
  }

  lemma TouchRoot(v: View)
    requires [] in v
    ensures Touch(v, []) == v
  {
    assert Prefixes([]) == {[]};
  }

  lemma TouchStep(v: View, p: Path, component: string)
    ensures Touch(v, Sub(p, component)) == Touch1(Touch(v, p), Sub(p, component))
  {
    var q := Sub(p, component);
    forall r
      ensures r in Prefixes(q) <==> r in Prefixes(p) || r == q
    {
      if IsPrefix(r, q) && |r| <= |p| {
        assert q[..|r|] == p[..|r|];
      }
      if IsPrefix(r, p) {
        assert q[..|r|] == p[..|r|];
      }
    }
  }

  // ---------------------------------------------------------------- the tree

  /** The links between the nodes are those of the flat map. */
  ghost predicate Linked(nodes: map<Path, Node>, kids: map<Path, map<string, Node>>) {
    && kids.Keys == nodes.Keys
    && (forall p, c {:trigger Sub(p, c)} :: Sub(p, c) in nodes ==>
        p in nodes && c in kids[p] && kids[p][c] == nodes[Sub(p, c)])
    && (forall p, c {:trigger Sub(p, c)} :: p in nodes && c in kids[p] ==> Sub(p, c) in nodes)
  }

  lemma ChildLinked(nodes: map<Path, Node>, kids: map<Path, map<string, Node>>, p: Path, component: string)
    requires Linked(nodes, kids) && p in nodes
    ensures component in kids[p] <==> Sub(p, component) in nodes
    ensures component in kids[p] ==> kids[p][component] == nodes[Sub(p, component)]
  {
  }

  lemma LinkedGrows(nodes: map<Path, Node>, kids: map<Path, map<string, Node>>, p: Path, component: string, child: Node)
    requires Linked(nodes, kids) && p in nodes && component !in kids[p]
    ensures Sub(p, component) !in nodes
    ensures Linked(nodes[Sub(p, component) := child],
                   kids[p := kids[p][component := child]][Sub(p, component) := map[]])
  {
    hide Sub;
    SubInjective(p, component);
  }

  class Tree {
    const root: Node
    /** The node at each path. */
    ghost var nodes: map<Path, Node>
    ghost var Repr: set<Node>

    ghost predicate Valid()
      reads this, Repr
    {
      && (forall p :: p in nodes ==> nodes[p] in Repr)
      && [] in nodes && nodes[[]] == root
      && (forall p, q :: p in nodes && q in nodes && p != q ==> nodes[p] != nodes[q])
      && Linked(nodes, Kids())
    }

    ghost function Kids(): map<Path, map<string, Node>>
      requires forall p :: p in nodes ==> nodes[p] in Repr
      reads this, Repr
    {
      map p | p in nodes :: nodes[p].children
    }

    ghost function View(): View
      requires Valid()
      reads this, Repr
    {
      Props()
    }

    ghost function Props(): (v: View)
      requires forall p :: p in nodes ==> nodes[p] in Repr
      reads this, Repr
      ensures v.Keys == nodes.Keys
    {
      map p | p in nodes :: nodes[p].props
    }

    lemma RootAt()
      requires Valid()
      ensures [] in nodes && nodes[[]] == root && [] in View()
    {
    }

    lemma KidsAt(p: Path)
      requires Valid() && p in nodes
      ensures p in Kids() && Kids()[p] == nodes[p].children
    {
    }

    constructor ()
      ensures Valid() && View() == map[[] := map[]] && fresh(Repr)
    {
      root := new Node();
      new;
      nodes, Repr := map[[] := root], {root};
    }

    method Attach(node: Node, component: string, child: Node, ghost p: Path)
      requires Valid() && p in nodes && nodes[p] == node
      modifies node`children
      ensures Kids() == old(Kids())[p := old(Kids())[p][component := child]] && Props() == old(Props())
    {
      hide Linked;
      node.children := node.children[component := child];
    }

    ghost method Register(child: Node, added: Path)
      requires (forall p :: p in nodes ==> nodes[p] in Repr) && added !in nodes && child !in Repr
      modifies `nodes, `Repr
      ensures nodes == old(nodes)[added := child] && Repr == old(Repr) + {child}
      ensures Kids() == old(Kids())[added := child.children] && Props() == old(Props())[added := child.props]
    {
      nodes, Repr := nodes[added := child], Repr + {child};
    }

    method Grow(node: Node, component: string, ghost p: Path) returns (child: Node)
      requires Valid() && p in nodes && nodes[p] == node && component !in node.children
      modifies `nodes, `Repr, node`children
      ensures Valid() && nodes == old(nodes)[Sub(p, component) := child] && Sub(p, component) !in old(nodes)
      ensures Repr == old(Repr) + {child} && fresh(child) && View() == old(View())[Sub(p, component) := map[]]
    {
      hide Sub, Linked, Kids, Props;
      child := new Node();
      KidsAt(p);
      LinkedGrows(nodes, Kids(), p, component, child);
      SubInjective(p, component);
      Attach(node, component, child, p);
      Register(child, Sub(p, component));
    }

    /** The child of the node at `p`, created when it is not there. */
    method Child(node: Node, component: string, ghost p: Path) returns (child: Node)
      requires Valid() && p in nodes && nodes[p] == node
      modifies this, Repr
      ensures Valid() && Sub(p, component) in nodes && nodes[Sub(p, component)] == child
      ensures forall q :: q in old(nodes) ==> q in nodes && nodes[q] == old(nodes)[q]
      ensures fresh(Repr - old(Repr))
      ensures View() == Touch1(old(View()), Sub(p, component))
    {
      hide Sub, Linked, Props;
      ChildLinked(nodes, Kids(), p, component);
      if component in node.children {
        return node.children[component];
      }
      child := Grow(node, component, p);
    }

    /** Parse a file into the property of that name. */
    method SetProperty(node: Node, file: string, value: Property, ghost p: Path)
      requires Valid() && p in nodes && nodes[p] == node
      modifies Repr
      ensures Valid() && nodes == old(nodes) && Repr == old(Repr)
      ensures p in old(View()) && View() == old(View())[p := old(View())[p][file := value]]
    {
      hide Linked;
      node.props := node.props[file := value];
      assert Kids() == old(Kids());
    }

    /** The node for a directory path. Nodes that exist stay where they are. */
    method Find(directoryPath: string) returns (node: Node)
      requires Valid()
      modifies this, Repr
      ensures Valid() && Normalise(directoryPath) in nodes && node == nodes[Normalise(directoryPath)]
      ensures forall q :: q in old(nodes) ==> q in nodes && nodes[q] == old(nodes)[q]
      ensures fresh(Repr - old(Repr))
      ensures View() == Touch(old(View()), Normalise(directoryPath))
    {
      hide Touch, Touch1, Normal, Split, Valid, View;
      RootAt();
      node := root;
      var parts := Split(directoryPath, '/');
      ghost var p: Path := [];
      TouchRoot(View());
      for k := 0 to |parts|
        invariant forall j :: 0 <= j < k ==> !Stops(parts[j])
        invariant Valid() && p == parts[..k] && p in nodes && nodes[p] == node
        invariant forall q :: q in old(nodes) ==> q in nodes && nodes[q] == old(nodes)[q]
        invariant fresh(Repr - old(Repr))
        invariant View() == Touch(old(View()), p)
      {
        var component := parts[k];
        if component == "." || component == "" {
          NormalPrefix(parts, k);
          return;
        }
        TouchStep(old(View()), p, component);
        node := Child(node, component, p);
        p := Sub(p, component);
      }
      NormalPrefix(parts, |parts|);
    }
  }

  // ---------------------------------------------------------------- building from an archive

  /** What Parse does with one file: set the property of that name, leave it (an unknown name,
      or no value in a file that holds one), or fail. */
  datatype Parsed = Sets(value: Property) | Keeps | Fails

  datatype Entry = Entry(regular: bool, name: string, parsed: Parsed) | Corrupt

  /** Where the file name starts. */
  function BaseAt(name: string): (k: nat)
    ensures k <= |name| && (k > 0 ==> name[k - 1] == '/') && forall j :: k <= j < |name| ==> name[j] != '/'
  {
    if name == "" then 0
    else if name[|name| - 1] == '/' then |name|
    else BaseAt(name[..|name| - 1])
  }

  function PathOf(e: Entry): Path
    requires e.Entry?
  {
    Normalise(e.name[..BaseAt(e.name)])
  }

  function FileOf(e: Entry): string
    requires e.Entry?
  {
    e.name[BaseAt(e.name)..]
  }

  /** A file in a directory: the components of its name before the last, and the last. */
  lemma EntryName(e: Entry, components: Path, file: string)
    requires e.Entry? && e.name == Join(components + [file], '/') && '/' !in file
    requires forall c :: c in components ==> c != "" && c != "." && '/' !in c
    ensures PathOf(e) == components && FileOf(e) == file
  {
    hide Split, Join;
    if components == [] {
      assert components + [file] == [file];
      JoinSingle(file, '/');
      BaseIs("", file);
      assert e.name == "" + file;
      SplitWhole("", '/');
    } else {
      JoinOne(components, file, '/');
      JoinOne(components, "", '/');
      var dir := Join(components, '/') + ['/'];
      assert Join(components, '/') + ['/'] + "" == dir;
      BaseIs(dir, file);
      SplitJoin(components + [""], '/');
      assert forall j :: 0 <= j < |components| ==> (components + [""])[j] in components;
      NormalPrefix(components + [""], |components|);
      assert (components + [""])[..|components|] == components;
    }
  }

  lemma BaseIs(dir: string, file: string)
    requires '/' !in file && (dir != "" ==> dir[|dir| - 1] == '/')
    ensures BaseAt(dir + file) == |dir|
    ensures (dir + file)[..|dir|] == dir && (dir + file)[|dir|..] == file
  {
    var name, k := dir + file, BaseAt(dir + file);
    assert dir != "" ==> name[|dir| - 1] == '/';
    assert forall j :: |dir| <= j < |name| ==> name[j] in file;
  }

  function Apply(v: View, e: Entry): View
    requires e.Entry?
  {
    if !e.regular then v
    else
      var touched := Touch(v, PathOf(e));
      if e.parsed.Sets? then touched[PathOf(e) := touched[PathOf(e)][FileOf(e) := e.parsed.value]] else touched
  }

  /** The flat map after a sequence of archive entries; None when reading or parsing fails. */
  function Build(entries: seq<Entry>): Option<View> {
    if entries == [] then Some(map[[] := map[]])
    else
      var before, e := Build(entries[..|entries| - 1]), entries[|entries| - 1];
      if before.None? || e.Corrupt? || (e.regular && e.parsed.Fails?) then None else Some(Apply(before.value, e))
  }

  method TreeFromTar(entries: seq<Entry>) returns (r: Option<Tree>)
    ensures r.Some? <==> Build(entries).Some?
    ensures r.Some? ==> r.value.Valid() && r.value.View() == Build(entries).value
  {
    hide Touch, Normalise, Tree.Valid, Tree.View;
    var tree := new Tree();
    for i := 0 to |entries|
      invariant tree.Valid() && fresh(tree) && fresh(tree.Repr)
      invariant Build(entries[..i]) == Some(tree.View())
    {
      var e := entries[i];
      assert entries[..i + 1][..i] == entries[..i];
      if e.Corrupt? {
        NoRecovery(entries, i + 1);
        return None;
      }
      if !e.regular {
        continue;
      }
      var k := BaseAt(e.name);
      var node := tree.Find(e.name[..k]);
      match e.parsed
      case Fails =>
        NoRecovery(entries, i + 1);
        return None;
      case Keeps =>
      case Sets(value) =>
        tree.SetProperty(node, e.name[k..], value, PathOf(e));
    }
    assert entries[..|entries|] == entries;
    return Some(tree);
  }

  lemma {:induction false} NoRecovery(entries: seq<Entry>, k: nat)
    requires k <= |entries| && Build(entries[..k]).None?
    ensures Build(entries).None?
    decreases |entries| - k
  {
    if k == |entries| {
      assert entries[..k] == entries;
    } else {
      assert entries[..k + 1][..k] == entries[..k];
      NoRecovery(entries, k + 1);
    }
  }

  // ---------------------------------------------------------------- what the flat map says

  /** The value of the last entry that sets a property of a node. */
  function LastSet(entries: seq<Entry>, p: Path, file: string): Option<Property> {
    if entries == [] then None
    else
      var e := entries[|entries| - 1];
      if e.Entry? && e.regular && e.parsed.Sets? && PathOf(e) == p && FileOf(e) == file then Some(e.parsed.value)
      else LastSet(entries[..|entries| - 1], p, file)
  }

  /** A node exists when it is the root or on the way to a regular file. */
  predicate Visited(entries: seq<Entry>, p: Path) {
    p == [] || exists e <- entries :: e.Entry? && e.regular && IsPrefix(p, PathOf(e))
  }

  /** Each property holds the value that was parsed last, under every spelling of its path. */
  lemma {:induction false} LastValueWins(entries: seq<Entry>, p: Path)
    requires Build(entries).Some?
    ensures var v := Build(entries).value;
      && (p in v <==> Visited(entries, p))
      && (p in v ==> forall file ::
          (file in v[p] <==> LastSet(entries, p, file).Some?)
          && (file in v[p] ==> LastSet(entries, p, file) == Some(v[p][file])))
      && (p !in v ==> forall file :: LastSet(entries, p, file).None?)
  {
    if entries != [] {
      var init, e := entries[..|entries| - 1], entries[|entries| - 1];
      LastValueWins(init, p);
      assert entries == init + [e];
      assert Visited(entries, p) <==> Visited(init, p) || (e.regular && IsPrefix(p, PathOf(e)));
      assert IsPrefix(PathOf(e), PathOf(e));
    }
  }
}
