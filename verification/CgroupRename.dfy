/** Renaming a cgroup tree while ranging over its maps: Node.ResolveNames of
    internal/pkg/cgroups/cgroups.go. */
module CgroupRename {
  import opened Wrappers
  import opened CgroupTree
  import opened MapRange

  /** What the tree of nodes below a node looks like. */
  datatype Shape = Shape(node: Node, kids: map<string, Shape>)

  ghost function Nodes(s: Shape): set<Node> {
    {s.node} + set k, n | k in s.kids && n in Nodes(s.kids[k]) :: n
  }

  /** A tree: no node occurs twice. */
  ghost predicate Separate(s: Shape) {
    && (forall k :: k in s.kids ==> s.node !in Nodes(s.kids[k]) && Separate(s.kids[k]))
    && (forall j, k :: j in s.kids && k in s.kids && j != k ==> Nodes(s.kids[j]) !! Nodes(s.kids[k]))
  }

  /** The heap has this shape. */
  ghost predicate Matches(s: Shape)
    reads Nodes(s)
  {
    && s.node.children.Keys == s.kids.Keys
    && forall k :: k in s.kids ==> s.node.children[k] == s.kids[k].node && Matches(s.kids[k])
  }

  /** No new name of a node is renamed again, everywhere in the tree. */
  ghost predicate NoChain(s: Shape, nameMap: NameMap) {
    && Settles(nameMap, s.kids.Keys)
    && (forall k :: k in s.kids ==> NoChain(s.kids[k], nameMap))
  }

  /** Siblings get different names, everywhere in the tree. */
  ghost predicate NoCollision(s: Shape, nameMap: NameMap) {
    && Distinguishes(nameMap, s.kids.Keys)
    && (forall k :: k in s.kids ==> NoCollision(s.kids[k], nameMap))
  }

  /** A tree whose renaming does not depend on any order. */
  ghost predicate Renamable(s: Shape, nameMap: NameMap) {
    Separate(s) && NoCollision(s, nameMap) && NoChain(s, nameMap)
  }

  /** The pure renaming: the same nodes under new names. */
  ghost function Rename(s: Shape, nameMap: NameMap): Shape
    requires NoCollision(s, nameMap)
  {
    Shape(s.node, map k | k in s.kids :: NewName(nameMap, k) := Rename(s.kids[k], nameMap))
  }

  lemma RenamedKid(s: Shape, nameMap: NameMap, k: string)
    requires NoCollision(s, nameMap) && k in s.kids
    ensures var kids := Rename(s, nameMap).kids;
      NoCollision(s.kids[k], nameMap) && NewName(nameMap, k) in kids && kids[NewName(nameMap, k)] == Rename(s.kids[k], nameMap)
  {
  }

  lemma KidBefore(s: Shape, nameMap: NameMap, j: string) returns (k: string)
    requires NoCollision(s, nameMap) && j in Rename(s, nameMap).kids
    ensures k in s.kids && NewName(nameMap, k) == j
    ensures NoCollision(s.kids[k], nameMap) && Rename(s, nameMap).kids[j] == Rename(s.kids[k], nameMap)
  {
    k :| k in s.kids && NewName(nameMap, k) == j;
  }

  lemma KidNodes(s: Shape, k: string)
    requires k in s.kids
    ensures Nodes(s.kids[k]) <= Nodes(s) && s.node in Nodes(s)
  {
  }

  lemma NodeWhere(s: Shape, n: Node) returns (k: string)
    requires n in Nodes(s) && n != s.node
    ensures k in s.kids && n in Nodes(s.kids[k])
  {
    k :| k in s.kids && n in Nodes(s.kids[k]);
  }

  lemma {:induction false} RenameKeepsNodes(s: Shape, nameMap: NameMap)
    requires NoCollision(s, nameMap)
    ensures Nodes(Rename(s, nameMap)) == Nodes(s)
  {
    var r := Rename(s, nameMap);
    assert r.node == s.node;
    hide Rename, NoCollision, Nodes;
    forall n | n in Nodes(s) && n != s.node
      ensures n in Nodes(r)
    {
      var k := NodeWhere(s, n);
      RenamedKid(s, nameMap, k);
      RenameKeepsNodes(s.kids[k], nameMap);
      KidNodes(r, NewName(nameMap, k));
    }
    forall n | n in Nodes(r) && n != s.node
      ensures n in Nodes(s)
    {
      var j := NodeWhere(r, n);
      var k := KidBefore(s, nameMap, j);
      RenameKeepsNodes(s.kids[k], nameMap);
      KidNodes(s, k);
    }
    OwnNode(s);
    OwnNode(r);
  }

  lemma OwnNode(s: Shape)
    ensures s.node in Nodes(s)
  {
  }

  lemma {:induction false} RenameKeepsSeparate(s: Shape, nameMap: NameMap)
    requires NoCollision(s, nameMap) && Separate(s)
    ensures Separate(Rename(s, nameMap))
  {
    hide Nodes, Rename, NoCollision, NewName;
    var r := Rename(s, nameMap);
    forall j | j in r.kids
      ensures s.node !in Nodes(r.kids[j]) && Separate(r.kids[j])
    {
      var k := KidBefore(s, nameMap, j);
      RenameKeepsNodes(s.kids[k], nameMap);
      RenameKeepsSeparate(s.kids[k], nameMap);
    }
    forall i, j | i in r.kids && j in r.kids && i != j
      ensures Nodes(r.kids[i]) !! Nodes(r.kids[j])
    {
      var h := KidBefore(s, nameMap, i);
      var k := KidBefore(s, nameMap, j);
      RenameKeepsNodes(s.kids[h], nameMap);
      RenameKeepsNodes(s.kids[k], nameMap);
    }
    RootStays(s, nameMap);
  }

  /** Renaming a renamed tree changes nothing. */
  lemma {:induction false} RenameIdempotent(s: Shape, nameMap: NameMap)
    requires NoCollision(s, nameMap) && NoChain(s, nameMap)
    ensures NoCollision(Rename(s, nameMap), nameMap) && NoChain(Rename(s, nameMap), nameMap)
    ensures Rename(Rename(s, nameMap), nameMap) == Rename(s, nameMap)
  {
    hide Rename, NoCollision;
    var r := Rename(s, nameMap);
    forall j | j in r.kids
      ensures NewName(nameMap, j) == j && Unaffected(r.kids[j], nameMap) && NoChain(r.kids[j], nameMap)
    {
      var k := KidBefore(s, nameMap, j);
      RenameIdempotent(s.kids[k], nameMap);
    }
    NothingToRename(r, nameMap);
  }

  ghost predicate Unaffected(s: Shape, nameMap: NameMap) {
    NoCollision(s, nameMap) && Rename(s, nameMap) == s
  }

  lemma NothingCollides(r: Shape, nameMap: NameMap)
    requires forall j :: j in r.kids ==> NewName(nameMap, j) == j && Unaffected(r.kids[j], nameMap)
    ensures NoCollision(r, nameMap)
  {
  }

  lemma NothingToRename(r: Shape, nameMap: NameMap)
    requires forall j :: j in r.kids ==> NewName(nameMap, j) == j && Unaffected(r.kids[j], nameMap)
    ensures Unaffected(r, nameMap)
  {
    NothingCollides(r, nameMap);
    RootStays(r, nameMap);
    forall j | j in r.kids
      ensures j in Rename(r, nameMap).kids && Rename(r, nameMap).kids[j] == r.kids[j]
    {
      hide NoCollision, Rename;
      RenamedKid(r, nameMap, j);
    }
    forall j | j in Rename(r, nameMap).kids
      ensures j in r.kids
    {
      hide NoCollision, Rename;
      var k := KidBefore(r, nameMap, j);
    }
    hide NoCollision, Rename, NewName;
    SameShape(Rename(r, nameMap), r);
  }

  lemma SameShape(a: Shape, b: Shape)
    requires a.node == b.node && (forall j :: j in a.kids ==> j in b.kids)
    requires forall j :: j in b.kids ==> j in a.kids && a.kids[j] == b.kids[j]
    ensures a == b
  {
    assert a.kids == b.kids;
  }

  /** The node at a path below the root of a shape. */
  ghost function NodeOn(s: Shape, p: Path): Option<Node> {
    if p == [] then Some(s.node)
    else if p[0] in s.kids then NodeOn(s.kids[p[0]], p[1..])
    else None
  }

  /** Every component that has a new name is replaced by it. */
  predicate PathRenamed(p: Path, q: Path, nameMap: NameMap) {
    |q| == |p| && forall i :: 0 <= i < |p| ==> q[i] == if p[i] in nameMap then nameMap[p[i]] else p[i]
  }

  /** Renaming keeps every node, and moves it from its path to the renamed path. */
  lemma {:induction false} RenamedRoutes(s: Shape, nameMap: NameMap, p: Path, q: Path)
    requires NoCollision(s, nameMap) && NodeOn(s, p).Some? && PathRenamed(p, q, nameMap)
    ensures NodeOn(Rename(s, nameMap), q) == NodeOn(s, p)
    decreases |p|
  {
    hide Rename, NoCollision;
    RootStays(s, nameMap);
    if p != [] {
      RenamedKid(s, nameMap, p[0]);
      RenamedRoutes(s.kids[p[0]], nameMap, p[1..], q[1..]);
    }
  }

  /** ... and there is no other: each path of the renamed tree comes from one of the old tree. */
  lemma {:induction false} RouteBefore(s: Shape, nameMap: NameMap, q: Path) returns (p: Path)
    requires NoCollision(s, nameMap) && NodeOn(Rename(s, nameMap), q).Some?
    ensures PathRenamed(p, q, nameMap) && NodeOn(s, p) == NodeOn(Rename(s, nameMap), q)
    decreases |q|
  {
    hide Rename, NoCollision;
    RootStays(s, nameMap);
    if q == [] {
      p := [];
    } else {
      var k := KidBefore(s, nameMap, q[0]);
      var rest := RouteBefore(s.kids[k], nameMap, q[1..]);
      p := [k] + rest;
      assert p[1..] == rest;
    }
  }

  // ---------------------------------------------------------------- the loop

  ghost function KidNodesOf(s: Shape): map<string, Node> {
    map k | k in s.kids :: s.kids[k].node
  }

  ghost function ShapeNow(s: Shape, nameMap: NameMap, pending: set<string>, k: string): Shape
    requires NoCollision(s, nameMap) && k in s.kids
  {
    if k in pending then s.kids[k] else Rename(s.kids[k], nameMap)
  }

  ghost predicate KidMatches(s: Shape, nameMap: NameMap, pending: set<string>, k: string)
    requires NoCollision(s, nameMap) && k in s.kids
    reads Nodes(s.kids[k])
  {
    && Nodes(ShapeNow(s, nameMap, pending, k)) == Nodes(s.kids[k])
    && Matches(ShapeNow(s, nameMap, pending, k))
  }

  /** Some of the entries have been renamed, and everything below them. */
  ghost predicate Midway(s: Shape, nameMap: NameMap, pending: set<string>)
    requires NoCollision(s, nameMap)
    reads Nodes(s)
  {
    && Named(s.node.children, KidNodesOf(s), nameMap, pending)
    && forall k :: k in s.kids ==> KidMatches(s, nameMap, pending, k)
  }

  lemma KidFacts(s: Shape, nameMap: NameMap, k: string)
    requires Separate(s) && NoCollision(s, nameMap) && k in s.kids
    ensures s.node in Nodes(s) && s.node !in Nodes(s.kids[k]) && Nodes(s.kids[k]) < Nodes(s)
    ensures Separate(s.kids[k]) && NoCollision(s.kids[k], nameMap)
    ensures forall j :: j in s.kids && j != k ==> Nodes(s.kids[j]) !! Nodes(s.kids[k])
    ensures Distinguishes(nameMap, KidNodesOf(s).Keys) && KidNodesOf(s)[k] == s.kids[k].node
    ensures s.kids[k].node in Nodes(s.kids[k])
    ensures NoChain(s, nameMap) ==> Settles(nameMap, KidNodesOf(s).Keys) && NoChain(s.kids[k], nameMap)
  {
  }

  // Midway and KidMatches in small steps.

  lemma MidwayParts(s: Shape, nameMap: NameMap, pending: set<string>)
    requires NoCollision(s, nameMap) && Midway(s, nameMap, pending)
    ensures Named(s.node.children, KidNodesOf(s), nameMap, pending) && pending <= s.kids.Keys
    ensures KidNodesOf(s).Keys == s.kids.Keys && forall k :: k in s.kids ==> KidNodesOf(s)[k] == s.kids[k].node
    ensures forall k :: k in s.kids ==> KidMatches(s, nameMap, pending, k)
  {
  }

  lemma MidwayIf(s: Shape, nameMap: NameMap, pending: set<string>)
    requires NoCollision(s, nameMap) && Named(s.node.children, KidNodesOf(s), nameMap, pending)
    requires forall k :: k in s.kids ==> KidMatches(s, nameMap, pending, k)
    ensures Midway(s, nameMap, pending)
  {
  }

  lemma KidDone(s: Shape, nameMap: NameMap, pending: set<string>, k: string)
    requires NoCollision(s, nameMap) && k in s.kids && k !in pending && Nodes(Rename(s.kids[k], nameMap)) == Nodes(s.kids[k])
    ensures KidMatches(s, nameMap, pending, k) <==> Matches(Rename(s.kids[k], nameMap))
  {
  }

  lemma KidPending(s: Shape, nameMap: NameMap, pending: set<string>, k: string)
    requires NoCollision(s, nameMap) && k in pending && k in s.kids && KidMatches(s, nameMap, pending, k)
    ensures Matches(s.kids[k])
  {
  }

  lemma KidUnaffected(s: Shape, nameMap: NameMap, pending: set<string>, key: string, k: string)
    requires NoCollision(s, nameMap) && k in s.kids && k != key && KidMatches(s, nameMap, pending, k)
    ensures KidMatches(s, nameMap, pending - {key}, k)
  {
    hide Nodes, Matches, Rename, NoCollision;
    assert ShapeNow(s, nameMap, pending - {key}, k) == ShapeNow(s, nameMap, pending, k);
  }

  lemma RootApart(s: Shape)
    requires Separate(s)
    ensures forall k :: k in s.kids ==> s.node !in Nodes(s.kids[k]) && Nodes(s.kids[k]) <= Nodes(s)
  {
  }

  /** An entry inserted by the range so far, under its new name. */
  ghost predicate Inserted(s: Shape, nameMap: NameMap, pending: set<string>, j: string) {
    exists k :: k in s.kids && k !in pending && k in nameMap && nameMap[k] == j
  }

  /** An entry that was in the map when the range began. */
  method RenameEntry(node: Node, key: string, nameMap: NameMap, ghost s: Shape, ghost pending: set<string>)
    requires node == s.node && key in pending && pending <= s.kids.Keys
    requires Renamable(s, nameMap) && Midway(s, nameMap, pending)
    modifies Nodes(s)`children
    ensures Midway(s, nameMap, pending - {key})
    decreases Nodes(s), 0
  {
    hide Nodes, Matches, Separate, NoCollision, Rename, Named, Produce, NoChain, Distinguishes, KidNodesOf, KidMatches, Midway;
    MidwayParts(s, nameMap, pending);
    KidFacts(s, nameMap, key);
    RootApart(s);
    RenameKeepsNodes(s.kids[key], nameMap);
    ProduceKeepsNamed(node.children, KidNodesOf(s), nameMap, pending, key);
    KidPending(s, nameMap, pending, key);
    var child := node.children[key];
    node.children := Produce(node.children, key, nameMap);
    assert forall k :: k in s.kids ==> KidMatches(s, nameMap, pending, k);
    assert allocated(Nodes(s));
    ResolveNames(child, nameMap, s.kids[key]);
    assert forall k :: k in s.kids && k != key ==> KidMatches(s, nameMap, pending, k);
    forall k | k in s.kids
      ensures KidMatches(s, nameMap, pending - {key}, k)
    {
      if k == key {
        KidDone(s, nameMap, pending - {key}, key);
      } else {
        KidUnaffected(s, nameMap, pending, key, k);
      }
    }
    MidwayIf(s, nameMap, pending - {key});
  }

  /** An entry that the range itself inserted: everything below it has its new name already. */
  method RevisitEntry(node: Node, key: string, nameMap: NameMap, ghost s: Shape, ghost pending: set<string>)
    requires node == s.node && Inserted(s, nameMap, pending, key)
    requires Renamable(s, nameMap) && Midway(s, nameMap, pending)
    modifies Nodes(s)`children
    ensures Midway(s, nameMap, pending)
    decreases Nodes(s), 0
  {
    hide Nodes, Matches, Separate, NoCollision, Rename, Named, NoChain, Distinguishes, KidNodesOf, KidMatches, Midway;
    ghost var k := InsertedFrom(s, nameMap, pending, key);
    MidwayParts(s, nameMap, pending);
    KidFacts(s, nameMap, k);
    RootApart(s);
    RevisitKid(s, nameMap, k);
    NotRenamed(node.children, KidNodesOf(s), nameMap, pending, k);
    KidDone(s, nameMap, pending, k);
    var child := node.children[key];
    node.children := Produce(node.children, key, nameMap);
    assert allocated(Nodes(s));
    ResolveNames(child, nameMap, Rename(s.kids[k], nameMap));
    assert forall j :: j in s.kids && j != k ==> KidMatches(s, nameMap, pending, j);
    KidDone(s, nameMap, pending, k);
    MidwayIf(s, nameMap, pending);
  }

  lemma NotRenamed(entries: map<string, Node>, kids: map<string, Node>, nameMap: NameMap, pending: set<string>, k: string)
    requires Named(entries, kids, nameMap, pending) && Settles(nameMap, kids.Keys)
    requires k in kids && k !in pending && k in nameMap
    ensures nameMap[k] in entries && entries[nameMap[k]] == kids[k] && Produce(entries, nameMap[k], nameMap) == entries
  {
    assert NameNow(nameMap, pending, k) == nameMap[k];
    assert NewName(nameMap, NewName(nameMap, k)) == NewName(nameMap, k);
  }

  lemma RevisitKid(s: Shape, nameMap: NameMap, k: string)
    requires NoCollision(s, nameMap) && NoChain(s, nameMap) && Separate(s) && k in s.kids
    ensures NoCollision(s.kids[k], nameMap) && NoChain(s.kids[k], nameMap)
    ensures var r := Rename(s.kids[k], nameMap);
      && NoCollision(r, nameMap) && NoChain(r, nameMap) && Separate(r) && Rename(r, nameMap) == r && Nodes(r) == Nodes(s.kids[k])
      && r.node == s.kids[k].node
  {
    RenameKeepsNodes(s.kids[k], nameMap);
    RenameKeepsSeparate(s.kids[k], nameMap);
    RenameIdempotent(s.kids[k], nameMap);
  }

  /** Rename everything below `node`. The range over the map may yield its entries in any
      order, and any number of the entries that were inserted on the way. */
  method ResolveNames(node: Node, nameMap: NameMap, ghost s: Shape)
    requires node == s.node && Matches(s) && Renamable(s, nameMap)
    modifies Nodes(s)`children
    ensures Matches(Rename(s, nameMap))
    decreases Nodes(s), 1
  {
    hide Midway, Matches, Separate, NoCollision, NoChain, Nodes, Rename, Inserted;
    var pending, inserted: set<string> := node.children.Keys, {};
    var more: nat := *;
    StartMidway(s, nameMap);
    while pending != {} || (inserted != {} && more > 0)
      invariant pending <= s.kids.Keys && Midway(s, nameMap, pending)
      invariant forall j :: j in inserted ==> Inserted(s, nameMap, pending, j)
      decreases |pending| + more
    {
      var later: bool := *;
      var key: string;
      if pending == {} || (inserted != {} && later && more > 0) {
        more := more - 1;
        key :| key in inserted;
        ghost var k := InsertedFrom(s, nameMap, pending, key);
        StillInserted(s, nameMap, k);
        var isNew := InsertsNew(node.children, key, nameMap);
        RevisitEntry(node, key, nameMap, s, pending);
        inserted := inserted - {key} + if isNew then {nameMap[key]} else {};
      } else {
        key :| key in pending;
        MidwayParts(s, nameMap, pending);
        var isNew := InsertsNew(node.children, key, nameMap);
        RenameEntry(node, key, nameMap, s, pending);
        InsertedLater(s, nameMap, pending, key);
        pending := pending - {key};
        inserted := inserted - {key} + if isNew then {nameMap[key]} else {};
      }
    }
    EndMidway(s, nameMap);
  }

  lemma StillInserted(s: Shape, nameMap: NameMap, k: string)
    requires NoChain(s, nameMap) && k in s.kids && k in nameMap
    ensures nameMap[k] in nameMap ==> nameMap[nameMap[k]] == nameMap[k]
  {
    assert NewName(nameMap, NewName(nameMap, k)) == NewName(nameMap, k);
  }

  lemma InsertedFrom(s: Shape, nameMap: NameMap, pending: set<string>, j: string) returns (k: string)
    requires Inserted(s, nameMap, pending, j)
    ensures k in s.kids && k !in pending && k in nameMap && nameMap[k] == j
  {
    k :| k in s.kids && k !in pending && k in nameMap && nameMap[k] == j;
  }

  lemma InsertedLater(s: Shape, nameMap: NameMap, pending: set<string>, key: string)
    requires key in pending && key in s.kids
    ensures forall j :: Inserted(s, nameMap, pending, j) ==> Inserted(s, nameMap, pending - {key}, j)
    ensures key in nameMap ==> Inserted(s, nameMap, pending - {key}, nameMap[key])
  {
  }

  lemma StartMidway(s: Shape, nameMap: NameMap)
    requires Matches(s) && NoCollision(s, nameMap)
    ensures s.node.children.Keys == s.kids.Keys && Midway(s, nameMap, s.kids.Keys)
  {
    hide Nodes, NoCollision, Rename, KidMatches, Named;
    AllPending(s, nameMap);
    forall k | k in s.kids
      ensures KidMatches(s, nameMap, s.kids.Keys, k)
    {
      KidStarts(s, nameMap, k);
    }
    MidwayIf(s, nameMap, s.kids.Keys);
  }

  lemma AllPending(s: Shape, nameMap: NameMap)
    requires s.node.children.Keys == s.kids.Keys && forall k :: k in s.kids ==> s.node.children[k] == s.kids[k].node
    ensures Named(s.node.children, KidNodesOf(s), nameMap, s.kids.Keys)
  {
    forall j | j in s.node.children
      ensures Taken(KidNodesOf(s), nameMap, s.kids.Keys, j)
    {
      assert NameNow(nameMap, s.kids.Keys, j) == j;
    }
  }

  lemma KidStarts(s: Shape, nameMap: NameMap, k: string)
    requires NoCollision(s, nameMap) && k in s.kids && Matches(s.kids[k])
    ensures KidMatches(s, nameMap, s.kids.Keys, k)
  {
    hide Nodes, Matches, Rename, NoCollision;
  }

  lemma EndMidway(s: Shape, nameMap: NameMap)
    requires NoCollision(s, nameMap) && Midway(s, nameMap, {})
    ensures Matches(Rename(s, nameMap))
  {
    hide Rename, NoCollision, Nodes, Matches, Named, KidNodesOf, KidMatches, Midway;
    var r := Rename(s, nameMap);
    RootStays(s, nameMap);
    MidwayParts(s, nameMap, {});
    forall j | j in s.node.children
      ensures j in r.kids
    {
      var k := OwnerOf(s.node.children, KidNodesOf(s), nameMap, {}, j);
      RenamedKid(s, nameMap, k);
    }
    forall j | j in r.kids
      ensures j in s.node.children && s.node.children[j] == r.kids[j].node && Matches(r.kids[j])
    {
      var k := KidBefore(s, nameMap, j);
      NameOf(s.node.children, KidNodesOf(s), nameMap, {}, k);
      RootStays(s.kids[k], nameMap);
      RenameKeepsNodes(s.kids[k], nameMap);
      KidDone(s, nameMap, {}, k);
    }
    MatchesIf(r);
  }

  lemma MatchesIf(r: Shape)
    requires forall j :: j in r.node.children ==> j in r.kids
    requires forall j :: j in r.kids ==> j in r.node.children && r.node.children[j] == r.kids[j].node && Matches(r.kids[j])
    ensures Matches(r)
  {
  }

  lemma RootStays(s: Shape, nameMap: NameMap)
    requires NoCollision(s, nameMap)
    ensures Rename(s, nameMap).node == s.node
  {
  }

  // ---------------------------------------------------------------- the tree that Find builds

  /** The paths from `p` down. */
  ghost function Below(t: Tree, p: Path): set<Path>
    reads t
  {
    set q | q in t.nodes && IsPrefix(p, q)
  }

  lemma BelowShrinks(t: Tree, p: Path, c: string)
    requires p in t.nodes
    ensures Below(t, Sub(p, c)) < Below(t, p)
  {
    assert p in Below(t, p) && p !in Below(t, Sub(p, c));
    forall q | q in Below(t, Sub(p, c))
      ensures IsPrefix(p, q)
    {
      assert q[..|p|] == Sub(p, c)[..|p|] == p;
    }
  }

  ghost function ShapeAt(t: Tree, p: Path): Shape
    requires t.Valid() && p in t.nodes
    reads t, t.Repr
    decreases Below(t, p)
  {
    Shape(t.nodes[p], map c | c in t.nodes[p].children :: (BelowShrinks(t, p, c); ShapeAt(t, Sub(p, c))))
  }

  ghost function NodesBelow(t: Tree, p: Path): set<Node>
    reads t
  {
    set q | q in Below(t, p) :: t.nodes[q]
  }

  lemma BelowOfChild(t: Tree, p: Path, q: Path)
    requires t.Valid() && p in t.nodes && q in Below(t, p) && q != p
    ensures q[|p|] in t.nodes[p].children && q in Below(t, Sub(p, q[|p|]))
  {
    var c := q[|p|];
    assert q[..|p| + 1] == Sub(p, c);
    PrefixIn(t, q, |p| + 1);
  }

  /** Paths on the way to a node have nodes. */
  lemma {:induction false} PrefixIn(t: Tree, q: Path, k: nat)
    requires t.Valid() && q in t.nodes && k <= |q|
    ensures q[..k] in t.nodes
    decreases |q| - k
  {
    if k == |q| {
      assert q[..k] == q;
    } else {
      PrefixIn(t, q, k + 1);
      assert q[..k + 1] == Sub(q[..k], q[k]);
    }
  }

  lemma {:induction false} ShapeNodes(t: Tree, p: Path)
    requires t.Valid() && p in t.nodes
    ensures Nodes(ShapeAt(t, p)) == NodesBelow(t, p)
    decreases Below(t, p)
  {
    var s := ShapeAt(t, p);
    forall c | c in s.kids
      ensures Nodes(s.kids[c]) == NodesBelow(t, Sub(p, c))
    {
      BelowShrinks(t, p, c);
      ShapeNodes(t, Sub(p, c));
    }
    assert p in Below(t, p);
    hide ShapeAt, Tree.Valid;
    forall n
      ensures n in Nodes(s) <==> n in NodesBelow(t, p)
    {
      if n in Nodes(s) && n != s.node {
        var c := NodeWhere(s, n);
        BelowShrinks(t, p, c);
      }
      if n in NodesBelow(t, p) && n != s.node {
        var q :| q in Below(t, p) && t.nodes[q] == n;
        BelowOfChild(t, p, q);
        KidNodes(s, q[|p|]);
      }
    }
  }

  lemma {:induction false} ShapeMatches(t: Tree, p: Path)
    requires t.Valid() && p in t.nodes
    ensures Nodes(ShapeAt(t, p)) <= t.Repr && Matches(ShapeAt(t, p))
    decreases Below(t, p)
  {
    ShapeNodes(t, p);
    forall c | c in ShapeAt(t, p).kids
      ensures Matches(ShapeAt(t, p).kids[c]) && ShapeAt(t, p).kids[c].node == t.nodes[p].children[c]
    {
      BelowShrinks(t, p, c);
      ShapeMatches(t, Sub(p, c));
    }
  }

  lemma {:induction false} ShapeSeparate(t: Tree, p: Path)
    requires t.Valid() && p in t.nodes
    ensures Separate(ShapeAt(t, p))
    decreases Below(t, p)
  {
    var s := ShapeAt(t, p);
    forall c | c in s.kids
      ensures Nodes(s.kids[c]) == NodesBelow(t, Sub(p, c)) && s.node !in Nodes(s.kids[c]) && Separate(s.kids[c])
    {
      BelowShrinks(t, p, c);
      ShapeNodes(t, Sub(p, c));
      ShapeSeparate(t, Sub(p, c));
    }
    forall b, c | b in s.kids && c in s.kids && b != c
      ensures Nodes(s.kids[b]) !! Nodes(s.kids[c])
    {
      Apart(t, p, b, c);
    }
  }

  lemma NameBelow(t: Tree, p: Path, c: string)
    ensures forall q :: q in Below(t, Sub(p, c)) ==> |q| > |p| && q[|p|] == c
  {
    forall q | q in Below(t, Sub(p, c))
      ensures |q| > |p| && q[|p|] == c
    {
      assert Sub(p, c)[|p|] == c;
    }
  }

  lemma Apart(t: Tree, p: Path, b: string, c: string)
    requires t.Valid() && b != c
    ensures NodesBelow(t, Sub(p, b)) !! NodesBelow(t, Sub(p, c))
  {
    NameBelow(t, p, b);
    NameBelow(t, p, c);
  }

  /** Tree.ResolveNames on a tree built by Find: whatever the order of iteration, the outcome is
      the pure renaming of the tree, with the same nodes and the same properties. */
  method ResolveTree(t: Tree, nameMap: NameMap)
    requires t.Valid() && [] in t.nodes
    requires NoCollision(ShapeAt(t, []), nameMap) && NoChain(ShapeAt(t, []), nameMap)
    modifies t.Repr`children
    ensures Matches(Rename(old(ShapeAt(t, [])), nameMap))
    ensures Nodes(Rename(old(ShapeAt(t, [])), nameMap)) == NodesBelow(t, [])
  {
    ghost var s := ShapeAt(t, []);
    ShapeMatches(t, []);
    ShapeSeparate(t, []);
    ShapeNodes(t, []);
    RenameKeepsNodes(s, nameMap);
    ResolveNames(t.root, nameMap, s);
  }
}
