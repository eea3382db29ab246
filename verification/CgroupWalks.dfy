/** All the runs of Node.ResolveNames over a whole tree, internal/pkg/cgroups/cgroups.go: at
    every node a range over the entries, and below each entry yielded a run of its own. */
module CgroupWalks {
  import opened Wrappers
  import opened CgroupTree
  import opened MapRange
  import opened CgroupRename

  /** The choices of a run: the entries that the range of a node yields, in order, each with the
      run below it. */
  datatype Walk = Walk(turns: seq<Turn>)

  datatype Turn = Turn(key: string, below: Walk)

  /** The tree after a run; None when a range cannot go like that. */
  ghost function Execute(s: Shape, walk: Walk, nameMap: NameMap): Option<Shape>
    decreases walk
  {
    var r := Turns(Begin(s.kids), walk.turns, nameMap);
    if r.Some? && r.value.pending == {} then Some(Shape(s.node, r.value.entries)) else None
  }

  /** An entry moves to its new name, and then everything below it is renamed. */
  ghost function Turns(r: Range<Shape>, turns: seq<Turn>, nameMap: NameMap): Option<Range<Shape>>
    decreases turns
  {
    if turns == [] then Some(r)
    else
      var key := turns[0].key;
      if !CanYield(r, key) then None
      else
        var below := Execute(r.entries[key], turns[0].below, nameMap);
        if below.None? then None else Turns(Resolved(r, key, below.value, nameMap), turns[1..], nameMap)
  }

  ghost function Resolved(r: Range<Shape>, key: string, child: Shape, nameMap: NameMap): Range<Shape>
    requires CanYield(r, key)
  {
    var t := Yield(r, key, nameMap);
    t.(entries := t.entries[NewName(nameMap, key) := child])
  }

  /** `r` is `s` under the new names: the pure renaming, as a relation. */
  ghost predicate IsRenaming(s: Shape, r: Shape, nameMap: NameMap) {
    && r.node == s.node
    && (forall k :: k in s.kids ==>
        NewName(nameMap, k) in r.kids && IsRenaming(s.kids[k], r.kids[NewName(nameMap, k)], nameMap))
    && (forall j :: j in r.kids ==> exists k :: k in s.kids && NewName(nameMap, k) == j)
  }

  ghost predicate EveryRunRenames(s: Shape, nameMap: NameMap) {
    forall walk :: Execute(s, walk, nameMap).Some? ==> IsRenaming(s, Execute(s, walk, nameMap).value, nameMap)
  }

  lemma {:induction false} RenameIsRenaming(s: Shape, nameMap: NameMap)
    requires NoCollision(s, nameMap)
    ensures IsRenaming(s, Rename(s, nameMap), nameMap)
  {
    hide Rename, NoCollision;
    var r := Rename(s, nameMap);
    RootStays(s, nameMap);
    forall k | k in s.kids
      ensures NewName(nameMap, k) in r.kids && IsRenaming(s.kids[k], r.kids[NewName(nameMap, k)], nameMap)
    {
      RenamedKid(s, nameMap, k);
      RenameIsRenaming(s.kids[k], nameMap);
    }
    forall j | j in r.kids
      ensures exists k :: k in s.kids && NewName(nameMap, k) == j
    {
      var k := KidBefore(s, nameMap, j);
    }
  }

  // ---------------------------------------------------------------- the conditions suffice

  /** The children in the middle of a range: those yielded have been renamed below. */
  ghost function KidsNow(s: Shape, nameMap: NameMap, pending: set<string>): map<string, Shape>
    requires NoCollision(s, nameMap)
  {
    map k | k in s.kids :: ShapeNow(s, nameMap, pending, k)
  }

  ghost predicate Held(s: Shape, r: Range<Shape>, nameMap: NameMap)
    requires NoCollision(s, nameMap)
  {
    Named(r.entries, KidsNow(s, nameMap, r.pending), nameMap, r.pending) && InsertedNames(r, s.kids, nameMap)
  }

  lemma KidsNowAt(s: Shape, nameMap: NameMap, pending: set<string>, k: string)
    requires NoCollision(s, nameMap) && k in s.kids
    ensures KidsNow(s, nameMap, pending).Keys == s.kids.Keys
    ensures KidsNow(s, nameMap, pending)[k] == if k in pending then s.kids[k] else Rename(s.kids[k], nameMap)
    ensures Distinguishes(nameMap, s.kids.Keys) && NoCollision(s.kids[k], nameMap)
    ensures NoChain(s, nameMap) ==> Settles(nameMap, s.kids.Keys) && NoChain(s.kids[k], nameMap)
  {
  }

  lemma KidsNowNext(s: Shape, nameMap: NameMap, pending: set<string>, key: string)
    requires NoCollision(s, nameMap) && key in s.kids
    ensures NoCollision(s.kids[key], nameMap)
    ensures KidsNow(s, nameMap, pending - {key}) == KidsNow(s, nameMap, pending)[key := Rename(s.kids[key], nameMap)]
  {
    hide Rename, NoCollision;
    KidsNowAt(s, nameMap, pending, key);
  }

  /** Changing what stands under the name of `key` changes that child and no other. */
  lemma NamedUpdate<T>(entries: map<string, T>, kids: map<string, T>, nameMap: NameMap, pending: set<string>, key: string, v: T)
    requires Distinguishes(nameMap, kids.Keys) && Settles(nameMap, kids.Keys)
    requires Named(entries, kids, nameMap, pending) && key in kids
    ensures Named(entries[NameNow(nameMap, pending, key) := v], kids[key := v], nameMap, pending)
  {
    hide Named, Distinguishes, Settles, NameNow;
    NamedPending(entries, kids, nameMap, pending);
    var name := NameNow(nameMap, pending, key);
    var after, now := entries[name := v], kids[key := v];
    forall k | k in now
      ensures NameNow(nameMap, pending, k) in after && after[NameNow(nameMap, pending, k)] == now[k]
    {
      if k != key {
        NameOf(entries, kids, nameMap, pending, k);
        if NameNow(nameMap, pending, k) == name {
          NowInjective(kids, nameMap, pending, k, key);
        }
      }
    }
    forall j | j in after
      ensures Taken(now, nameMap, pending, j)
    {
      if j != name {
        var k := OwnerOf(entries, kids, nameMap, pending, j);
        assert k in now;
      } else {
        assert key in now;
      }
    }
    NamedIf(after, now, nameMap, pending);
  }

  /** The turn of an entry that was there when the range began. */
  lemma HeldPending(s: Shape, r: Range<Shape>, nameMap: NameMap, key: string)
    requires NoCollision(s, nameMap) && NoChain(s, nameMap) && Held(s, r, nameMap) && key in r.pending
    ensures key in s.kids && CanYield(r, key) && r.entries[key] == s.kids[key] && NoCollision(s.kids[key], nameMap)
    ensures Held(s, Resolved(r, key, Rename(s.kids[key], nameMap), nameMap), nameMap)
  {
    hide Named, Rename, NoCollision, NoChain, KidsNow, Produce;
    var kids := KidsNow(s, nameMap, r.pending);
    NamedPending(r.entries, kids, nameMap, r.pending);
    KidKeys(s, nameMap, r.pending);
    KidsNowAt(s, nameMap, r.pending, key);
    ProduceKeepsNamed(r.entries, kids, nameMap, r.pending, key);
    NamedUpdate(Produce(r.entries, key, nameMap), kids, nameMap, r.pending - {key}, key, Rename(s.kids[key], nameMap));
    KidsNowNext(s, nameMap, r.pending, key);
  }

  lemma KidKeys(s: Shape, nameMap: NameMap, pending: set<string>)
    requires NoCollision(s, nameMap)
    ensures KidsNow(s, nameMap, pending).Keys == s.kids.Keys
  {
  }

  lemma ResolvedSame(r: Range<Shape>, key: string, nameMap: NameMap)
    requires CanYield(r, key) && key !in r.pending && NewName(nameMap, key) == key
    ensures var t := Resolved(r, key, r.entries[key], nameMap);
      t.entries == r.entries && t.pending == r.pending && t.inserted <= r.inserted
  {
    assert Produce(r.entries, key, nameMap) == r.entries;
    assert r.entries[key := r.entries[key]] == r.entries;
  }

  lemma InsertedFor(s: Shape, r: Range<Shape>, nameMap: NameMap, key: string) returns (k: string)
    requires InsertedNames(r, s.kids, nameMap) && key in r.inserted
    ensures k in s.kids && k !in r.pending && NewName(nameMap, k) == key
  {
    k :| k in s.kids && k !in r.pending && NewName(nameMap, k) == key;
  }

  /** The turn of an entry that the range itself inserted. */
  lemma HeldInserted(s: Shape, r: Range<Shape>, nameMap: NameMap, key: string) returns (k: string)
    requires NoCollision(s, nameMap) && NoChain(s, nameMap) && Held(s, r, nameMap)
    requires CanYield(r, key) && key !in r.pending
    ensures k in s.kids && NoCollision(s.kids[k], nameMap) && r.entries[key] == Rename(s.kids[k], nameMap)
    ensures Held(s, Resolved(r, key, r.entries[key], nameMap), nameMap)
  {
    hide Named, Rename, NoCollision, NoChain, KidsNow, Resolved;
    k := InsertedFor(s, r, nameMap, key);
    KidsNowAt(s, nameMap, r.pending, k);
    KidKeys(s, nameMap, r.pending);
    assert NameNow(nameMap, r.pending, k) == key && NewName(nameMap, key) == key;
    NameOf(r.entries, KidsNow(s, nameMap, r.pending), nameMap, r.pending, k);
    ResolvedSame(r, key, nameMap);
  }

  /** Every run over a tree that meets the conditions ends in its pure renaming. */
  lemma {:induction false} ExecuteRenames(s: Shape, walk: Walk, nameMap: NameMap)
    requires NoCollision(s, nameMap) && NoChain(s, nameMap) && Execute(s, walk, nameMap).Some?
    ensures Execute(s, walk, nameMap).value == Rename(s, nameMap)
    decreases walk
  {
    hide Rename, NoCollision, NoChain, Held;
    HeldAtFirst(s, nameMap);
    TurnsRename(s, Begin(s.kids), walk.turns, nameMap);
    HeldAtLast(s, Turns(Begin(s.kids), walk.turns, nameMap).value, nameMap);
  }

  lemma HeldAtFirst(s: Shape, nameMap: NameMap)
    requires NoCollision(s, nameMap)
    ensures Held(s, Begin(s.kids), nameMap)
  {
    hide NoCollision, Rename, Named;
    assert KidsNow(s, nameMap, s.kids.Keys) == s.kids;
    StartNamed(s.kids, nameMap);
  }

  lemma HeldAtLast(s: Shape, r: Range<Shape>, nameMap: NameMap)
    requires NoCollision(s, nameMap) && Held(s, r, nameMap) && r.pending == {}
    ensures Shape(s.node, r.entries) == Rename(s, nameMap)
  {
    hide NoCollision, Rename, Named, KidsNow;
    var renamed := Rename(s, nameMap);
    var kids := KidsNow(s, nameMap, {});
    RootStays(s, nameMap);
    KidKeys(s, nameMap, {});
    forall j | j in r.entries
      ensures j in renamed.kids && r.entries[j] == renamed.kids[j]
    {
      var k := OwnerOf(r.entries, kids, nameMap, {}, j);
      NameOf(r.entries, kids, nameMap, {}, k);
      KidsNowAt(s, nameMap, {}, k);
      RenamedKid(s, nameMap, k);
    }
    forall j | j in renamed.kids
      ensures j in r.entries
    {
      var k := KidBefore(s, nameMap, j);
      NameOf(r.entries, kids, nameMap, {}, k);
    }
    assert r.entries == renamed.kids;
  }

  lemma {:induction false} TurnsRename(s: Shape, r: Range<Shape>, turns: seq<Turn>, nameMap: NameMap)
    requires NoCollision(s, nameMap) && NoChain(s, nameMap) && Held(s, r, nameMap) && Turns(r, turns, nameMap).Some?
    ensures Held(s, Turns(r, turns, nameMap).value, nameMap)
    decreases turns
  {
    if turns != [] {
      hide Rename, NoCollision, NoChain, Held, Execute, Resolved;
      var key, below := turns[0].key, turns[0].below;
      if key in r.pending {
        HeldPending(s, r, nameMap, key);
        KidsNowAt(s, nameMap, r.pending, key);
        ExecuteRenames(s.kids[key], below, nameMap);
        TurnsRename(s, Resolved(r, key, Rename(s.kids[key], nameMap), nameMap), turns[1..], nameMap);
      } else {
        var k := HeldInserted(s, r, nameMap, key);
        KidsNowAt(s, nameMap, r.pending, k);
        RenameIdempotent(s.kids[k], nameMap);
        ExecuteRenames(r.entries[key], below, nameMap);
        TurnsRename(s, Resolved(r, key, r.entries[key], nameMap), turns[1..], nameMap);
      }
    }
  }

  // ---------------------------------------------------------------- the conditions are needed

  /** No deeper than `h`. */
  ghost predicate Bounded(s: Shape, h: nat) {
    h > 0 && forall k :: k in s.kids ==> Bounded(s.kids[k], h - 1)
  }

  lemma {:induction false} BoundedMore(s: Shape, h: nat, g: nat)
    requires Bounded(s, h) && h <= g
    ensures Bounded(s, g)
  {
    forall k | k in s.kids
      ensures Bounded(s.kids[k], g - 1)
    {
      BoundedMore(s.kids[k], h - 1, g - 1);
    }
  }

  lemma {:induction false} HasBound(s: Shape) returns (h: nat)
    ensures Bounded(s, h)
  {
    var left := s.kids.Keys;
    h := 1;
    while left != {}
      invariant h > 0 && left <= s.kids.Keys
      invariant forall k :: k in s.kids && k !in left ==> Bounded(s.kids[k], h - 1)
    {
      var k :| k in left;
      var g := HasBound(s.kids[k]);
      var more := if g + 1 > h then g + 1 else h;
      BoundedMore(s.kids[k], g, more - 1);
      forall j | j in s.kids && j !in left
        ensures Bounded(s.kids[j], more - 1)
      {
        BoundedMore(s.kids[j], h - 1, more - 1);
      }
      h := more;
      left := left - {k};
    }
  }

  ghost predicate AllBounded(r: Range<Shape>, h: nat) {
    r.pending <= r.entries.Keys && forall j :: j in r.entries ==> Bounded(r.entries[j], h)
  }

  lemma ResolvedBounded(r: Range<Shape>, key: string, child: Shape, nameMap: NameMap, h: nat)
    requires AllBounded(r, h) && CanYield(r, key) && Bounded(child, h)
    ensures AllBounded(Resolved(r, key, child, nameMap), h)
  {
    hide Bounded, Produce;
    ProduceAt(r.entries, key, nameMap);
  }

  /** A run makes no tree deeper. */
  lemma {:induction false} ExecuteBounded(s: Shape, walk: Walk, nameMap: NameMap, h: nat)
    requires Bounded(s, h) && Execute(s, walk, nameMap).Some?
    ensures Bounded(Execute(s, walk, nameMap).value, h) && Execute(s, walk, nameMap).value.node == s.node
    decreases walk
  {
    TurnsBounded(Begin(s.kids), walk.turns, nameMap, h - 1);
  }

  lemma {:induction false} TurnsBounded(r: Range<Shape>, turns: seq<Turn>, nameMap: NameMap, h: nat)
    requires AllBounded(r, h) && Turns(r, turns, nameMap).Some?
    ensures AllBounded(Turns(r, turns, nameMap).value, h)
    decreases turns
  {
    if turns != [] {
      hide Bounded, Execute, Resolved, AllBounded;
      var key := turns[0].key;
      EntryBounded(r, key, h);
      ExecuteBounded(r.entries[key], turns[0].below, nameMap, h);
      var child := Execute(r.entries[key], turns[0].below, nameMap).value;
      ResolvedBounded(r, key, child, nameMap, h);
      TurnsBounded(Resolved(r, key, child, nameMap), turns[1..], nameMap, h);
    }
  }

  lemma EntryBounded(r: Range<Shape>, key: string, h: nat)
    requires AllBounded(r, h) && key in r.entries
    ensures Bounded(r.entries[key], h)
  {
  }

  lemma TurnsOne(r: Range<Shape>, key: string, below: Walk, rest: seq<Turn>, nameMap: NameMap)
    requires CanYield(r, key) && Execute(r.entries[key], below, nameMap).Some?
    ensures Turns(r, [Turn(key, below)] + rest, nameMap)
         == Turns(Resolved(r, key, Execute(r.entries[key], below, nameMap).value, nameMap), rest, nameMap)
  {
    hide Execute, Resolved;
    assert ([Turn(key, below)] + rest)[1..] == rest;
  }

  /** What stands at `m` stays there until the range ends, if nothing else is yielded twice. */
  predicate Keeps(r: Range<Shape>, nameMap: NameMap, m: string) {
    m in r.entries && m !in r.pending && forall p :: p in r.pending ==> NewName(nameMap, p) != m
  }

  lemma ResolvedKeeps(r: Range<Shape>, key: string, child: Shape, nameMap: NameMap, m: string)
    requires CanYield(r, key) && key in r.pending && Keeps(r, nameMap, m)
    ensures var t := Resolved(r, key, child, nameMap); Keeps(t, nameMap, m) && t.entries[m] == r.entries[m]
  {
    hide Produce;
    ProduceAt(r.entries, key, nameMap);
  }

  /** Some run over a tree is complete. */
  lemma {:induction false} SomeWalk(s: Shape, nameMap: NameMap, h: nat) returns (walk: Walk)
    requires Bounded(s, h)
    ensures Execute(s, walk, nameMap).Some?
    decreases h, 1, 0
  {
    var turns := FinishTurns(Begin(s.kids), nameMap, h - 1, "");
    walk := Walk(turns);
  }

  /** A range that is under way can be brought to an end without yielding anything twice. */
  lemma {:induction false} FinishTurns(r: Range<Shape>, nameMap: NameMap, h: nat, m: string) returns (turns: seq<Turn>)
    requires AllBounded(r, h)
    ensures Turns(r, turns, nameMap).Some?
    ensures var t := Turns(r, turns, nameMap).value;
      t.pending == {} && (Keeps(r, nameMap, m) ==> m in t.entries && t.entries[m] == r.entries[m])
    decreases h, 2, |r.pending|
  {
    if r.pending == {} {
      turns := [];
    } else {
      hide Bounded, Execute, Turns, Keeps;
      var key :| key in r.pending;
      var below := SomeWalk(r.entries[key], nameMap, h);
      ExecuteBounded(r.entries[key], below, nameMap, h);
      var child := Execute(r.entries[key], below, nameMap).value;
      ResolvedBounded(r, key, child, nameMap, h);
      if Keeps(r, nameMap, m) {
        ResolvedKeeps(r, key, child, nameMap, m);
      }
      turns := FinishTurns(Resolved(r, key, child, nameMap), nameMap, h, m);
      TurnsOne(r, key, below, turns, nameMap);
      turns := [Turn(key, below)] + turns;
    }
  }

  /** The range as one over the nodes themselves, which keep their identity. */
  ghost function NodeRange(r: Range<Shape>): Range<Node> {
    Range(map j | j in r.entries :: r.entries[j].node, r.pending, r.inserted)
  }

  lemma ResolvedNodes(r: Range<Shape>, key: string, child: Shape, nameMap: NameMap)
    requires CanYield(r, key) && child.node == r.entries[key].node
    ensures CanYield(NodeRange(r), key) && NodeRange(Resolved(r, key, child, nameMap)) == Yield(NodeRange(r), key, nameMap)
  {
    hide Produce;
    var t, u := Resolved(r, key, child, nameMap), Yield(NodeRange(r), key, nameMap);
    ProduceAt(r.entries, key, nameMap);
    ProduceAt(NodeRange(r).entries, key, nameMap);
    assert NodeRange(r).entries.Keys == r.entries.Keys;
    assert NodeRange(t).entries == u.entries;
  }

  /** Every schedule of the nodes is one of a run. */
  lemma {:induction false} FollowSchedule(r: Range<Shape>, keys: seq<string>, nameMap: NameMap, result: map<string, Node>, h: nat)
    returns (turns: seq<Turn>)
    requires AllBounded(r, h) && Schedule(NodeRange(r), keys, nameMap, result)
    ensures Turns(r, turns, nameMap).Some?
    ensures var t := Turns(r, turns, nameMap).value; t.pending == {} && NodeRange(t).entries == result
    decreases |keys|
  {
    if keys == [] {
      turns := [];
    } else {
      hide Bounded, Execute, Turns, Yield, Resolved;
      var key := keys[0];
      assert CanYield(r, key);
      var below := SomeWalk(r.entries[key], nameMap, h);
      ExecuteBounded(r.entries[key], below, nameMap, h);
      var child := Execute(r.entries[key], below, nameMap).value;
      ResolvedBounded(r, key, child, nameMap, h);
      ResolvedNodes(r, key, child, nameMap);
      turns := FollowSchedule(Resolved(r, key, child, nameMap), keys[1..], nameMap, result, h);
      TurnsOne(r, key, below, turns, nameMap);
      turns := [Turn(key, below)] + turns;
    }
  }

  lemma RenamingOfNodes(s: Shape, r: Shape, nameMap: NameMap)
    requires IsRenaming(s, r, nameMap)
    ensures Renamed(KidNodesOf(r), KidNodesOf(s), nameMap)
  {
    forall j | j in KidNodesOf(r)
      ensures Taken(KidNodesOf(s), nameMap, {}, j)
    {
      var k :| k in s.kids && NewName(nameMap, k) == j;
      assert k in KidNodesOf(s) && NameNow(nameMap, {}, k) == j;
    }
  }

  lemma DifferentNodes(s: Shape)
    requires Separate(s)
    ensures KidNodesOf(s).Keys == s.kids.Keys
    ensures forall i, j :: i in s.kids && j in s.kids && i != j ==> KidNodesOf(s)[i] != KidNodesOf(s)[j]
  {
    hide Nodes;
    forall i, j | i in s.kids && j in s.kids && i != j
      ensures s.kids[i].node != s.kids[j].node
    {
      OwnNode(s.kids[i]);
      OwnNode(s.kids[j]);
      assert Nodes(s.kids[i]) !! Nodes(s.kids[j]);
    }
  }

  /** A schedule that goes wrong at the root is part of a run. */
  lemma RootGoesWrong(s: Shape, nameMap: NameMap, keys: seq<string>, result: map<string, Node>)
    requires Schedule(Begin(KidNodesOf(s)), keys, nameMap, result) && !Renamed(result, KidNodesOf(s), nameMap)
    ensures !EveryRunRenames(s, nameMap)
  {
    hide Bounded, Schedule, Renamed, IsRenaming;
    var h := HasBound(s);
    KidsBounded(s, h);
    assert NodeRange(Begin(s.kids)) == Begin(KidNodesOf(s));
    var turns := FollowSchedule(Begin(s.kids), keys, nameMap, result, h - 1);
    var walk := Walk(turns);
    var r := Execute(s, walk, nameMap).value;
    assert KidNodesOf(r) == result;
    if IsRenaming(s, r, nameMap) {
      RenamingOfNodes(s, r, nameMap);
    }
  }

  lemma KidsBounded(s: Shape, h: nat)
    requires Bounded(s, h)
    ensures h > 0 && AllBounded(Begin(s.kids), h - 1)
  {
  }

  lemma LocalGoesWrong(s: Shape, nameMap: NameMap)
    requires Separate(s) && !(Distinguishes(nameMap, s.kids.Keys) && Settles(nameMap, s.kids.Keys))
    ensures !EveryRunRenames(s, nameMap)
  {
    hide Separate, Schedule, Renamed, EveryRunRenames;
    DifferentNodes(s);
    var kids := KidNodesOf(s);
    if !Distinguishes(nameMap, kids.Keys) {
      var j, k :| j in kids && k in kids && j != k && NewName(nameMap, j) == NewName(nameMap, k);
      var keys, result := CollisionGoesWrong(kids, nameMap, j, k);
      RootGoesWrong(s, nameMap, keys, result);
    } else {
      var k :| k in kids && NewName(nameMap, NewName(nameMap, k)) != NewName(nameMap, k);
      var keys, result := ChainGoesWrong(kids, nameMap, k);
      RootGoesWrong(s, nameMap, keys, result);
    }
  }

  /** A run that goes wrong below a child is part of one over the whole tree: yield that child
      first, and nothing twice. */
  lemma KidGoesWrong(s: Shape, nameMap: NameMap, k: string)
    requires Distinguishes(nameMap, s.kids.Keys) && Settles(nameMap, s.kids.Keys)
    requires k in s.kids && !EveryRunRenames(s.kids[k], nameMap)
    ensures !EveryRunRenames(s, nameMap)
  {
    var below :| Execute(s.kids[k], below, nameMap).Some?
      && !IsRenaming(s.kids[k], Execute(s.kids[k], below, nameMap).value, nameMap);
    hide Bounded, IsRenaming;
    var child, name := Execute(s.kids[k], below, nameMap).value, NewName(nameMap, k);
    var h := HasBound(s);
    KidsBounded(s, h);
    EntryBounded(Begin(s.kids), k, h - 1);
    ExecuteBounded(s.kids[k], below, nameMap, h - 1);
    ResolvedBounded(Begin(s.kids), k, child, nameMap, h - 1);
    var r := Resolved(Begin(s.kids), k, child, nameMap);
    NothingComesTo(s, nameMap, k);
    var turns := FinishTurns(r, nameMap, h - 1, name);
    TurnsOne(Begin(s.kids), k, below, turns, nameMap);
    var walk := Walk([Turn(k, below)] + turns);
    var result := Execute(s, walk, nameMap).value;
    assert result.kids[name] == child;
    NotRenaming(s, result, nameMap, k);
  }

  lemma NothingComesTo(s: Shape, nameMap: NameMap, k: string)
    requires Distinguishes(nameMap, s.kids.Keys) && Settles(nameMap, s.kids.Keys) && k in s.kids
    ensures forall p :: p in s.kids && p != k ==> NewName(nameMap, p) != NewName(nameMap, k)
    ensures NewName(nameMap, k) in s.kids ==> NewName(nameMap, k) == k
  {
    assert NewName(nameMap, NewName(nameMap, k)) == NewName(nameMap, k);
  }

  lemma NotRenaming(s: Shape, r: Shape, nameMap: NameMap, k: string)
    requires k in s.kids && NewName(nameMap, k) in r.kids
    requires !IsRenaming(s.kids[k], r.kids[NewName(nameMap, k)], nameMap)
    ensures !IsRenaming(s, r, nameMap)
  {
  }

  // ---------------------------------------------------------------- exactly

  /** Every run over a tree ends in its pure renaming exactly when, at every node, siblings get
      different names and no new name is renamed again. */
  lemma {:induction false} EveryRunIff(s: Shape, nameMap: NameMap)
    requires Separate(s)
    ensures EveryRunRenames(s, nameMap) <==> NoCollision(s, nameMap) && NoChain(s, nameMap)
  {
    hide Execute, IsRenaming, Rename;
    if NoCollision(s, nameMap) && NoChain(s, nameMap) {
      RenameIsRenaming(s, nameMap);
      forall walk | Execute(s, walk, nameMap).Some?
        ensures Execute(s, walk, nameMap).value == Rename(s, nameMap)
      {
        ExecuteRenames(s, walk, nameMap);
      }
    } else if !Distinguishes(nameMap, s.kids.Keys) || !Settles(nameMap, s.kids.Keys) {
      LocalGoesWrong(s, nameMap);
    } else {
      var k :| k in s.kids && !(NoCollision(s.kids[k], nameMap) && NoChain(s.kids[k], nameMap));
      EveryRunIff(s.kids[k], nameMap);
      KidGoesWrong(s, nameMap, k);
    }
  }
}
