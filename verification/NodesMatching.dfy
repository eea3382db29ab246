/** Matching expected nodes with actual nodes: pkg/cluster/cluster_chubo.go. */
module NodesMatching {
  import Distinct

  type Addr = int

  datatype NodeInfo = NodeInfo(internalIP: Addr, ips: seq<Addr>)

  datatype MatchResult = Matched | Missing(expected: nat) | Unexpected(actual: set<nat>)

  predicate Intersects(e: NodeInfo, a: NodeInfo) {
    (set ip | ip in e.ips) * (set ip | ip in a.ips) != {}
  }

  lemma IntersectsMeaning(e: NodeInfo, a: NodeInfo)
    ensures Intersects(e, a) <==> exists i, j :: 0 <= i < |e.ips| && 0 <= j < |a.ips| && e.ips[i] == a.ips[j]
  {
    var common := (set ip | ip in e.ips) * (set ip | ip in a.ips);
    if ip :| ip in common {
      assert ip in e.ips && ip in a.ips;
    }
    forall i, j | 0 <= i < |e.ips| && 0 <= j < |a.ips| && e.ips[i] == a.ips[j]
      ensures e.ips[i] in common
    {
    }
  }

  /** `m` pairs the first |m| expected nodes with different, intersecting actual nodes. */
  predicate Pairing(expected: seq<NodeInfo>, actual: seq<NodeInfo>, m: seq<nat>) {
    && |m| <= |expected|
    && (forall i :: 0 <= i < |m| ==> m[i] < |actual| && Intersects(expected[i], actual[m[i]]))
    && (forall i, j :: 0 <= i < j < |m| ==> m[i] != m[j])
  }

  /** A one-to-one pairing of all the expected with all the actual nodes. */
  predicate Bijection(expected: seq<NodeInfo>, actual: seq<NodeInfo>, m: seq<nat>) {
    Pairing(expected, actual, m) && |m| == |expected| && forall a: nat :: a < |actual| ==> a in m
  }

  ghost predicate Matchable(expected: seq<NodeInfo>, actual: seq<NodeInfo>) {
    exists m :: Bijection(expected, actual, m)
  }

  /** Expected nodes that share an actual node intersect exactly the same actual nodes. */
  predicate Blocks(expected: seq<NodeInfo>, actual: seq<NodeInfo>) {
    forall i, j, a, b | 0 <= i < |expected| && 0 <= j < |expected| && 0 <= a < |actual| && 0 <= b < |actual| ::
      Intersects(expected[i], actual[a]) && Intersects(expected[j], actual[a]) && Intersects(expected[i], actual[b])
      ==> Intersects(expected[j], actual[b])
  }

  predicate AtMostOneEach(expected: seq<NodeInfo>, actual: seq<NodeInfo>) {
    forall i, a, b | 0 <= i < |expected| && 0 <= a < |actual| && 0 <= b < |actual| ::
      Intersects(expected[i], actual[a]) && Intersects(expected[i], actual[b]) ==> a == b
  }

  lemma AtMostOneIsBlocks(expected: seq<NodeInfo>, actual: seq<NodeInfo>)
    requires AtMostOneEach(expected, actual)
    ensures Blocks(expected, actual)
  {
  }

  function Indices(n: nat): (r: set<nat>)
    ensures forall a: nat :: a in r <==> a < n
  {
    if n == 0 then {} else Indices(n - 1) + {n - 1}
  }

  /** The actual nodes that the pairs chosen so far leave over. */
  function Free(actual: seq<NodeInfo>, m: seq<nat>): (free: set<nat>)
    ensures forall a :: a in free ==> a < |actual|
  {
    Indices(|actual|) - set a | a in m
  }

  /** No free actual node intersects the next expected one. */
  predicate Stuck(expected: seq<NodeInfo>, actual: seq<NodeInfo>, m: seq<nat>) {
    |m| < |expected| && forall a :: a in Free(actual, m) ==> !Intersects(expected[|m|], actual[a])
  }

  /** Take, in any order, the first free actual node that intersects. */
  method FindActual(e: NodeInfo, actual: seq<NodeInfo>, free: set<nat>) returns (found: bool, a: nat)
    requires forall i :: i in free ==> i < |actual|
    ensures found <==> exists i :: i in free && Intersects(e, actual[i])
    ensures found ==> a in free && Intersects(e, actual[a])
  {
    found, a := false, 0;
    var left := free;
    while left != {}
      invariant left <= free && !found
      invariant forall i :: i in free - left ==> !Intersects(e, actual[i])
    {
      a :| a in left;
      left := left - {a};
      if Intersects(e, actual[a]) {
        found := true;
        break;
      }
    }
  }

  ghost predicate LeavesOver(expected: seq<NodeInfo>, actual: seq<NodeInfo>, free: set<nat>) {
    free != {} && exists m :: Pairing(expected, actual, m) && |m| == |expected| && free == Free(actual, m)
  }

  ghost predicate GetsStuck(expected: seq<NodeInfo>, actual: seq<NodeInfo>, k: nat) {
    exists m :: Pairing(expected, actual, m) && |m| == k && Stuck(expected, actual, m)
  }

  /** Some order of iteration gets stuck: any pairing is the course of some run, since a map
      yields its free nodes in any order. */
  ghost predicate SomeOrderSticks(expected: seq<NodeInfo>, actual: seq<NodeInfo>) {
    exists m :: Pairing(expected, actual, m) && Stuck(expected, actual, m)
  }

  /** No order gets stuck, and none leaves an actual node over. */
  ghost predicate EveryOrderMatches(expected: seq<NodeInfo>, actual: seq<NodeInfo>) {
    && !SomeOrderSticks(expected, actual)
    && forall m :: Pairing(expected, actual, m) && |m| == |expected| ==> Bijection(expected, actual, m)
  }

  /** Greedy matching in list order over an unordered set of actual nodes. */
  method NodesMatch(expected: seq<NodeInfo>, actual: seq<NodeInfo>) returns (r: MatchResult)
    // for any iteration order, nil means there is a bijection
    ensures r.Matched? ==> Matchable(expected, actual)
    // an error means that the pairs chosen so far leave a node over
    ensures r.Missing? ==> GetsStuck(expected, actual, r.expected)
    ensures r.Unexpected? ==> LeavesOver(expected, actual, r.actual)
    // where sharing is all or nothing, nil is returned if and only if there is a bijection
    ensures Blocks(expected, actual) ==> (r.Matched? <==> Matchable(expected, actual))
    // and where no order can go wrong, none does
    ensures EveryOrderMatches(expected, actual) ==> r.Matched?
  {
    hide Intersects, Blocks, Pairing, Free, Bijection;
    var actualNodes := Indices(|actual|);
    ghost var m: seq<nat> := [];
    Start(expected, actual);
    ghost var hope := Blocks(expected, actual) && Matchable(expected, actual);
    ghost var f: seq<nat> := [];
    if hope {
      f :| Bijection(expected, actual, f);
      BijectionLength(expected, actual, f);
    }
    for k := 0 to |expected|
      invariant |m| == k && Pairing(expected, actual, m)
      invariant actualNodes == Free(actual, m)
      invariant hope ==> Bijection(expected, actual, f) && |f| == |expected| && f[..k] == m
    {
      var found, a := FindActual(expected[k], actual, actualNodes);
      if hope {
        NextIsFree(expected, actual, f, k);
        f := Exchange(expected, actual, f, k, a);
      }
      if !found {
        assert Stuck(expected, actual, m);
        return Missing(k);
      }
      Extend(expected, actual, m, a);
      actualNodes := actualNodes - {a};
      m := m + [a];
    }
    NothingLeft(expected, actual, m);
    assert hope ==> f == m;
    if actualNodes != {} {
      return Unexpected(actualNodes);
    }
    return Matched;
  }

  lemma Start(expected: seq<NodeInfo>, actual: seq<NodeInfo>)
    ensures Pairing(expected, actual, []) && Free(actual, []) == Indices(|actual|)
  {
  }

  lemma BijectionLength(expected: seq<NodeInfo>, actual: seq<NodeInfo>, f: seq<nat>)
    requires Bijection(expected, actual, f)
    ensures |f| == |expected|
  {
  }

  lemma Extend(expected: seq<NodeInfo>, actual: seq<NodeInfo>, m: seq<nat>, a: nat)
    requires Pairing(expected, actual, m) && |m| < |expected|
    requires a in Free(actual, m) && Intersects(expected[|m|], actual[a])
    ensures Pairing(expected, actual, m + [a]) && Free(actual, m + [a]) == Free(actual, m) - {a}
  {
  }

  /** When nothing is left over the pairs form a bijection. */
  lemma NothingLeft(expected: seq<NodeInfo>, actual: seq<NodeInfo>, m: seq<nat>)
    requires Pairing(expected, actual, m) && |m| == |expected|
    ensures Free(actual, m) == {} <==> Bijection(expected, actual, m)
  {
    if Free(actual, m) == {} {
      forall a: nat | a < |actual|
        ensures a in m
      {
        assert a !in Free(actual, m);
      }
    }
  }

  lemma NextIsFree(expected: seq<NodeInfo>, actual: seq<NodeInfo>, f: seq<nat>, k: nat)
    requires Bijection(expected, actual, f) && k < |expected|
    ensures f[k] in Free(actual, f[..k]) && Intersects(expected[k], actual[f[k]])
  {
  }

  /** Whatever free node the greedy step picks, a bijection can be changed to agree with it. */
  lemma Exchange(expected: seq<NodeInfo>, actual: seq<NodeInfo>, f: seq<nat>, k: nat, a: nat) returns (g: seq<nat>)
    requires Blocks(expected, actual) && Bijection(expected, actual, f) && k < |expected|
    requires a in Free(actual, f[..k]) && Intersects(expected[k], actual[a])
    ensures Bijection(expected, actual, g) && |g| == |f| && g[..k] == f[..k] && g[k] == a
  {
    hide Intersects, Blocks, Free;
    assert a in f && a !in f[..k] by {
      FreeMeaning(actual, f[..k], a);
    }
    var j :| 0 <= j < |f| && f[j] == a;
    Distinct.InTake(f, j, k);
    g := Swapped(f, k, j);
    InBlock(expected, actual, k, j, a, f[k]);
    SwapKeeps(f, k, j);
  }

  lemma FreeMeaning(actual: seq<NodeInfo>, m: seq<nat>, a: nat)
    ensures a in Free(actual, m) <==> a < |actual| && a !in m
  {
  }

  lemma InBlock(expected: seq<NodeInfo>, actual: seq<NodeInfo>, i: nat, j: nat, a: nat, b: nat)
    requires Blocks(expected, actual) && i < |expected| && j < |expected| && a < |actual| && b < |actual|
    requires Intersects(expected[i], actual[a]) && Intersects(expected[j], actual[a]) && Intersects(expected[i], actual[b])
    ensures Intersects(expected[j], actual[b])
  {
  }

  function Swapped(f: seq<nat>, k: nat, j: nat): (g: seq<nat>)
    requires k <= j < |f|
    ensures |g| == |f| && g[..k] == f[..k]
    ensures forall i :: 0 <= i < |f| ==> g[i] == if i == j then f[k] else if i == k then f[j] else f[i]
  {
    f[k := f[j]][j := f[k]]
  }

  lemma SwapKeeps(f: seq<nat>, k: nat, j: nat)
    requires k <= j < |f|
    requires forall i, l :: 0 <= i < l < |f| ==> f[i] != f[l]
    ensures var g := Swapped(f, k, j);
      && (forall i, l :: 0 <= i < l < |g| ==> g[i] != g[l])
      && (forall b :: b in f ==> b in g)
  {
    var g := Swapped(f, k, j);
    forall b | b in f
      ensures b in g
    {
      var i :| 0 <= i < |f| && f[i] == b;
      assert g[if i == k then j else if i == j then k else i] == b;
    }
  }

  // ---------------------------------------------------------------- when an order can go wrong

  /** All the actual nodes that expected[i] intersects can go to earlier expected nodes: `g`
      gives each to one of its own, which intersects it too. */
  ghost predicate Starves(expected: seq<NodeInfo>, actual: seq<NodeInfo>, i: nat, g: map<nat, nat>) {
    && i < |expected|
    && (forall a: nat :: a < |actual| && Intersects(expected[i], actual[a]) ==>
        a in g && g[a] < i && Intersects(expected[g[a]], actual[a]))
    && (forall a: nat, b: nat | a < |actual| && b < |actual| && a != b ::
        Intersects(expected[i], actual[a]) && Intersects(expected[i], actual[b]) ==> g[a] != g[b])
  }

  ghost predicate Starvable(expected: seq<NodeInfo>, actual: seq<NodeInfo>) {
    exists i, g :: Starves(expected, actual, i, g)
  }

  /** A stuck pairing has given the nodes away. */
  lemma StuckStarves(expected: seq<NodeInfo>, actual: seq<NodeInfo>, m: seq<nat>)
    requires Pairing(expected, actual, m) && Stuck(expected, actual, m)
    ensures Starvable(expected, actual)
  {
    hide Intersects;
    var g := map a | a in m :: Distinct.FirstIndex(m, a);
    forall a: nat | a < |actual| && Intersects(expected[|m|], actual[a])
      ensures a in m && a in g && m[g[a]] == a
    {
      FreeMeaning(actual, m, a);
    }
    assert Starves(expected, actual, |m|, g);
  }

  /** What has been given away among the nodes that expected[i] intersects. */
  ghost predicate Given(expected: seq<NodeInfo>, actual: seq<NodeInfo>, i: nat, g: map<nat, nat>, m: seq<nat>)
    requires i < |expected|
  {
    forall a: nat :: a < |actual| && Intersects(expected[i], actual[a]) && a in g && g[a] < |m| ==> a in m
  }

  /** Conversely, let each expected node take the node kept for it, if that is still free, and
      anything it can otherwise: that gets stuck, at `i` at the latest. */
  lemma {:induction false} StarvesSticks(expected: seq<NodeInfo>, actual: seq<NodeInfo>, i: nat, g: map<nat, nat>, m: seq<nat>)
    requires Starves(expected, actual, i, g) && |m| <= i && Pairing(expected, actual, m) && Given(expected, actual, i, g, m)
    ensures SomeOrderSticks(expected, actual)
    decreases i - |m|
  {
    hide Intersects, Free;
    if |m| == i {
      forall a | a in Free(actual, m)
        ensures !Intersects(expected[i], actual[a])
      {
        FreeMeaning(actual, m, a);
      }
    } else if a: nat :| a < |actual| && Intersects(expected[i], actual[a]) && g[a] == |m| && a !in m {
      FreeMeaning(actual, m, a);
      Extend(expected, actual, m, a);
      StarvesSticks(expected, actual, i, g, m + [a]);
    } else if a: nat :| a in Free(actual, m) && Intersects(expected[|m|], actual[a]) {
      Extend(expected, actual, m, a);
      StarvesSticks(expected, actual, i, g, m + [a]);
    } else {
      assert Stuck(expected, actual, m);
    }
  }

  /** Some order gets stuck exactly when an expected node can be starved by earlier ones. */
  lemma StuckIff(expected: seq<NodeInfo>, actual: seq<NodeInfo>)
    ensures SomeOrderSticks(expected, actual) <==> Starvable(expected, actual)
  {
    hide Intersects, Starves;
    if SomeOrderSticks(expected, actual) {
      var m :| Pairing(expected, actual, m) && Stuck(expected, actual, m);
      StuckStarves(expected, actual, m);
    }
    if Starvable(expected, actual) {
      var i, g :| Starves(expected, actual, i, g);
      StarvedExists(expected, actual, i, g);
      StarvesSticks(expected, actual, i, g, []);
    }
  }

  lemma StarvedExists(expected: seq<NodeInfo>, actual: seq<NodeInfo>, i: nat, g: map<nat, nat>)
    requires Starves(expected, actual, i, g)
    ensures i < |expected|
  {
  }

  lemma IndicesCount(n: nat)
    ensures |Indices(n)| == n
  {
  }

  lemma {:induction false} FreeCount(expected: seq<NodeInfo>, actual: seq<NodeInfo>, m: seq<nat>)
    requires Pairing(expected, actual, m)
    ensures |Free(actual, m)| == |actual| - |m|
  {
    hide Intersects;
    if m == [] {
      Start(expected, actual);
      IndicesCount(|actual|);
    } else {
      var init, a := m[..|m| - 1], m[|m| - 1];
      assert m == init + [a];
      FreeCount(expected, actual, init);
      FreeMeaning(actual, init, a);
      Extend(expected, actual, init, a);
    }
  }

  lemma {:induction false} Completes(expected: seq<NodeInfo>, actual: seq<NodeInfo>, m: seq<nat>) returns (full: seq<nat>)
    requires Pairing(expected, actual, m) && !SomeOrderSticks(expected, actual)
    ensures Pairing(expected, actual, full) && |full| == |expected|
    decreases |expected| - |m|
  {
    hide Intersects, Free;
    if |m| == |expected| {
      full := m;
    } else {
      assert !Stuck(expected, actual, m);
      var a: nat :| a in Free(actual, m) && Intersects(expected[|m|], actual[a]);
      Extend(expected, actual, m, a);
      full := Completes(expected, actual, m + [a]);
    }
  }

  /** Nil is returned for every order exactly when there are as many nodes as expected and no
      expected node can be starved. */
  lemma NilForEveryOrder(expected: seq<NodeInfo>, actual: seq<NodeInfo>)
    ensures EveryOrderMatches(expected, actual) <==> |expected| == |actual| && !Starvable(expected, actual)
  {
    hide Pairing, Bijection, Free, Stuck, SomeOrderSticks, Starvable;
    StuckIff(expected, actual);
    if !SomeOrderSticks(expected, actual) {
      Start(expected, actual);
      var full := Completes(expected, actual, []);
      FreeCount(expected, actual, full);
      NothingLeft(expected, actual, full);
      forall m | Pairing(expected, actual, m) && |m| == |expected|
        ensures Bijection(expected, actual, m) <==> |expected| == |actual|
      {
        FreeCount(expected, actual, m);
        NothingLeft(expected, actual, m);
      }
    }
  }

  /** So the promise of nil for every order can fail although a bijection exists: the first
      expected node takes the only actual node the second one could have had. */
  lemma GreedyCanMiss() returns (expected: seq<NodeInfo>, actual: seq<NodeInfo>)
    ensures Matchable(expected, actual) && SomeOrderSticks(expected, actual)
  {
    expected := [NodeInfo(1, [1, 2]), NodeInfo(1, [1])];
    actual := [NodeInfo(1, [1]), NodeInfo(2, [2])];
    ShareOne(expected, actual);
    StuckIff(expected, actual);
    hide Intersects;
    assert Bijection(expected, actual, [1, 0]) by {
      assert [1, 0][0] == 1 && [1, 0][1] == 0;
    }
    assert Starves(expected, actual, 1, map[0 := 0]);
  }

  /** And it can hold although the nodes do not come in blocks: listed the other way round, the
      same nodes match in every order. */
  lemma OrderOfListMatters() returns (expected: seq<NodeInfo>, actual: seq<NodeInfo>)
    ensures !Blocks(expected, actual) && EveryOrderMatches(expected, actual)
  {
    var shared, lists := NodeInfo(1, [1, 2]), NodeInfo(1, [1]);
    expected := [lists, shared];
    actual := [NodeInfo(1, [1]), NodeInfo(2, [2])];
    ShareOne([shared, lists], actual);
    hide Intersects, EveryOrderMatches;
    NilForEveryOrder(expected, actual);
    forall i: nat, g: map<nat, nat>
      ensures !Starves(expected, actual, i, g)
    {
      NotStarved(expected, actual, i, g);
    }
    assert Intersects(expected[0], actual[0]) && Intersects(expected[1], actual[0]) && Intersects(expected[1], actual[1]);
  }

  lemma NotStarved(expected: seq<NodeInfo>, actual: seq<NodeInfo>, i: nat, g: map<nat, nat>)
    requires |expected| == |actual| == 2
    requires Intersects(expected[0], actual[0]) && Intersects(expected[1], actual[0]) && Intersects(expected[1], actual[1])
    ensures !Starves(expected, actual, i, g)
  {
    hide Intersects;
  }

  lemma ShareOne(expected: seq<NodeInfo>, actual: seq<NodeInfo>)
    requires expected == [NodeInfo(1, [1, 2]), NodeInfo(1, [1])] && actual == [NodeInfo(1, [1]), NodeInfo(2, [2])]
    ensures Intersects(expected[0], actual[0]) && Intersects(expected[0], actual[1]) && Intersects(expected[1], actual[0])
    ensures !Intersects(expected[1], actual[1])
  {
    var e0, e1 := set ip | ip in expected[0].ips, set ip | ip in expected[1].ips;
    var a0, a1 := set ip | ip in actual[0].ips, set ip | ip in actual[1].ips;
    assert 1 in e0 && 2 in e0 && 1 in e1 && 1 in a0 && 2 in a1;
    assert 1 in e0 * a0 && 2 in e0 * a1 && 1 in e1 * a0;
  }
}
