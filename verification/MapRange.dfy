/** Ranging over a map while the loop body renames its entries: the loop of Node.ResolveNames in
    internal/pkg/cgroups/cgroups.go, for one map. A range yields every entry that was there when
    it began, in any order, and may yield an entry that was inserted on the way. */
module MapRange {

  type NameMap = map<string, string>

  function NewName(nameMap: NameMap, name: string): string {
    if name in nameMap then nameMap[name] else name
  }

  /** Different entries get different names. */
  ghost predicate Distinguishes(nameMap: NameMap, names: set<string>) {
    forall j, k :: j in names && k in names && j != k ==> NewName(nameMap, j) != NewName(nameMap, k)
  }

  /** No entry's new name is renamed again. */
  ghost predicate Settles(nameMap: NameMap, names: set<string>) {
    forall k :: k in names ==> NewName(nameMap, NewName(nameMap, k)) == NewName(nameMap, k)
  }

  /** One turn of the loop: the entry `key` moves to its new name. */
  function Produce<T>(entries: map<string, T>, key: string, nameMap: NameMap): map<string, T>
    requires key in entries
  {
    if key in nameMap then (entries - {key})[nameMap[key] := entries[key]] else entries
  }

  /** Moving the entry creates one, rather than overwriting one that is there. */
  predicate InsertsNew<T>(entries: map<string, T>, key: string, nameMap: NameMap) {
    key in nameMap && nameMap[key] !in entries.Keys - {key}
  }

  // ---------------------------------------------------------------- in the middle of a range

  /** The names not yet produced are the old ones, the others the new ones. */
  function NameNow(nameMap: NameMap, pending: set<string>, k: string): string {
    if k in pending then k else NewName(nameMap, k)
  }

  /** Some node has this name at the moment. */
  ghost predicate Taken<T>(kids: map<string, T>, nameMap: NameMap, pending: set<string>, j: string) {
    exists k :: k in kids && NameNow(nameMap, pending, k) == j
  }

  /** The map holds exactly the nodes `kids`, under their names of the moment. */
  ghost predicate Named<T>(entries: map<string, T>, kids: map<string, T>, nameMap: NameMap, pending: set<string>) {
    && pending <= kids.Keys
    && (forall k {:trigger NameNow(nameMap, pending, k)} :: k in kids ==>
        NameNow(nameMap, pending, k) in entries && entries[NameNow(nameMap, pending, k)] == kids[k])
    && (forall j :: j in entries ==> Taken(kids, nameMap, pending, j))
  }

  lemma NowInjective<T>(kids: map<string, T>, nameMap: NameMap, pending: set<string>, j: string, k: string)
    requires Distinguishes(nameMap, kids.Keys) && Settles(nameMap, kids.Keys)
    requires j in kids && k in kids && NameNow(nameMap, pending, j) == NameNow(nameMap, pending, k)
    ensures j == k
  {
  }

  lemma NameOf<T>(entries: map<string, T>, kids: map<string, T>, nameMap: NameMap, pending: set<string>, k: string)
    requires Named(entries, kids, nameMap, pending) && k in kids
    ensures NameNow(nameMap, pending, k) in entries && entries[NameNow(nameMap, pending, k)] == kids[k]
  {
  }

  lemma OwnerOf<T>(entries: map<string, T>, kids: map<string, T>, nameMap: NameMap, pending: set<string>, j: string)
    returns (k: string)
    requires Named(entries, kids, nameMap, pending) && j in entries
    ensures k in kids && NameNow(nameMap, pending, k) == j
  {
    assert Taken(kids, nameMap, pending, j);
    k :| k in kids && NameNow(nameMap, pending, k) == j;
  }

  lemma ProduceKeepsNamed<T>(entries: map<string, T>, kids: map<string, T>, nameMap: NameMap, pending: set<string>, key: string)
    requires Distinguishes(nameMap, kids.Keys) && Settles(nameMap, kids.Keys)
    requires Named(entries, kids, nameMap, pending) && key in pending
    ensures key in entries && entries[key] == kids[key]
    ensures Named(Produce(entries, key, nameMap), kids, nameMap, pending - {key})
  {
    hide Named, Distinguishes, Settles, Produce;
    NamedPending(entries, kids, nameMap, pending);
    NameOf(entries, kids, nameMap, pending, key);
    ProduceAt(entries, key, nameMap);
    var after, now := Produce(entries, key, nameMap), pending - {key};
    forall k | k in kids
      ensures NameNow(nameMap, now, k) in after && after[NameNow(nameMap, now, k)] == kids[k]
    {
      if k != key {
        NameOf(entries, kids, nameMap, pending, k);
        if NameNow(nameMap, pending, k) == key {
          NowInjective(kids, nameMap, pending, k, key);
        }
        if NameNow(nameMap, now, k) == NameNow(nameMap, now, key) {
          NowInjective(kids, nameMap, now, k, key);
        }
      }
    }
    forall j | j in after
      ensures Taken(kids, nameMap, now, j)
    {
      if j == NewName(nameMap, key) {
        assert NameNow(nameMap, now, key) == j;
      } else {
        var k := OwnerOf(entries, kids, nameMap, pending, j);
        assert NameNow(nameMap, now, k) == j;
      }
    }
    NamedIf(after, kids, nameMap, now);
  }

  lemma ProduceAt<T>(entries: map<string, T>, key: string, nameMap: NameMap)
    requires key in entries
    ensures var after, name := Produce(entries, key, nameMap), NewName(nameMap, key);
      && name in after && after[name] == entries[key]
      && (forall j :: j != name ==> (j in after <==> j in entries && j != key))
      && (forall j :: j != name && j in after ==> after[j] == entries[j])
  {
  }

  lemma NamedPending<T>(entries: map<string, T>, kids: map<string, T>, nameMap: NameMap, pending: set<string>)
    requires Named(entries, kids, nameMap, pending)
    ensures pending <= kids.Keys
  {
  }

  lemma NamedIf<T>(entries: map<string, T>, kids: map<string, T>, nameMap: NameMap, pending: set<string>)
    requires pending <= kids.Keys
    requires forall k :: k in kids ==>
      NameNow(nameMap, pending, k) in entries && entries[NameNow(nameMap, pending, k)] == kids[k]
    requires forall j :: j in entries ==> Taken(kids, nameMap, pending, j)
    ensures Named(entries, kids, nameMap, pending)
  {
  }

  // ---------------------------------------------------------------- schedules

  /** A range that is under way: the entries of the moment, those of the beginning that it still
      has to yield, and those inserted since that it may yield. */
  datatype Range<T> = Range(entries: map<string, T>, pending: set<string>, inserted: set<string>)

  function Begin<T>(entries: map<string, T>): Range<T> {
    Range(entries, entries.Keys, {})
  }

  predicate CanYield<T>(r: Range<T>, key: string) {
    key in r.entries && (key in r.pending || key in r.inserted)
  }

  function Yield<T>(r: Range<T>, key: string, nameMap: NameMap): Range<T>
    requires CanYield(r, key)
  {
    Range(Produce(r.entries, key, nameMap), r.pending - {key},
          r.inserted - {key} + if InsertsNew(r.entries, key, nameMap) then {nameMap[key]} else {})
  }

  /** The range yields `keys` in this order and then ends, with these entries. */
  ghost predicate Schedule<T>(r: Range<T>, keys: seq<string>, nameMap: NameMap, result: map<string, T>)
    decreases |keys|
  {
    if keys == [] then r.pending == {} && result == r.entries
    else CanYield(r, keys[0]) && Schedule(Yield(r, keys[0], nameMap), keys[1..], nameMap, result)
  }

  /** The pure renaming: each entry of `kids` under its new name, and nothing else. */
  ghost predicate Renamed<T>(result: map<string, T>, kids: map<string, T>, nameMap: NameMap) {
    Named(result, kids, nameMap, {})
  }

  /** Said with the name map alone: an entry that is in it stands under its new name, any other
      under its old one, and nothing else is there. */
  lemma RenamedMeaning<T>(result: map<string, T>, kids: map<string, T>, nameMap: NameMap)
    ensures Renamed(result, kids, nameMap) <==>
      && (forall k :: k in kids && k in nameMap ==> nameMap[k] in result && result[nameMap[k]] == kids[k])
      && (forall k :: k in kids && k !in nameMap ==> k in result && result[k] == kids[k])
      && (forall j :: j in result ==> (j in kids && j !in nameMap) || exists k :: k in kids && k in nameMap && nameMap[k] == j)
  {
    assert forall k :: NameNow(nameMap, {}, k) == if k in nameMap then nameMap[k] else k;
  }

  ghost predicate EveryOrderRenames<T(!new)>(kids: map<string, T>, nameMap: NameMap) {
    forall keys, result :: Schedule(Begin(kids), keys, nameMap, result) ==> Renamed(result, kids, nameMap)
  }

  /** What was inserted stands under the new name of an entry that was yielded. */
  ghost predicate InsertedNames<T>(r: Range<T>, kids: map<string, T>, nameMap: NameMap) {
    forall j :: j in r.inserted ==> exists k :: k in kids && k !in r.pending && NewName(nameMap, k) == j
  }

  lemma YieldKeepsNamed<T>(r: Range<T>, key: string, kids: map<string, T>, nameMap: NameMap)
    requires Distinguishes(nameMap, kids.Keys) && Settles(nameMap, kids.Keys) && CanYield(r, key)
    requires Named(r.entries, kids, nameMap, r.pending) && InsertedNames(r, kids, nameMap)
    ensures var t := Yield(r, key, nameMap); Named(t.entries, kids, nameMap, t.pending) && InsertedNames(t, kids, nameMap)
  {
    if key in r.pending {
      hide Named;
      NamedPending(r.entries, kids, nameMap, r.pending);
      ProduceKeepsNamed(r.entries, kids, nameMap, r.pending, key);
    } else {
      var k :| k in kids && k !in r.pending && NewName(nameMap, k) == key;
      assert NewName(nameMap, key) == key;
      assert Produce(r.entries, key, nameMap) == r.entries && r.pending - {key} == r.pending;
    }
  }

  lemma {:induction false} ScheduleRenames<T>(r: Range<T>, keys: seq<string>, kids: map<string, T>, nameMap: NameMap, result: map<string, T>)
    requires Distinguishes(nameMap, kids.Keys) && Settles(nameMap, kids.Keys)
    requires Named(r.entries, kids, nameMap, r.pending) && InsertedNames(r, kids, nameMap)
    requires Schedule(r, keys, nameMap, result)
    ensures Renamed(result, kids, nameMap)
    decreases |keys|
  {
    hide Distinguishes, Settles, Named, InsertedNames, Yield, CanYield;
    if keys != [] {
      YieldKeepsNamed(r, keys[0], kids, nameMap);
      ScheduleRenames(Yield(r, keys[0], nameMap), keys[1..], kids, nameMap, result);
    }
  }

  /** The value of `k` is gone, or stands for good where it does not belong. */
  ghost predicate Misplaced<T>(r: Range<T>, kids: map<string, T>, nameMap: NameMap, k: string)
    requires k in kids
  {
    forall j :: j in r.entries && r.entries[j] == kids[k] ==> j !in r.pending && j != NewName(nameMap, k)
  }

  lemma YieldKeepsMisplaced<T>(r: Range<T>, key: string, kids: map<string, T>, nameMap: NameMap, k: string)
    requires k in kids && Misplaced(r, kids, nameMap, k) && CanYield(r, key) && key in r.pending
    ensures Misplaced(Yield(r, key, nameMap), kids, nameMap, k)
  {
    hide Produce;
    ProduceAt(r.entries, key, nameMap);
  }

  lemma MisplacedIsWrong<T>(r: Range<T>, kids: map<string, T>, nameMap: NameMap, k: string)
    requires k in kids && Misplaced(r, kids, nameMap, k)
    ensures !Renamed(r.entries, kids, nameMap)
  {
    assert NameNow(nameMap, {}, k) == NewName(nameMap, k);
  }

  /** Every range can be brought to an end, and then what was misplaced still is. */
  lemma {:induction false} Finish<T>(r: Range<T>, kids: map<string, T>, nameMap: NameMap, k: string)
    returns (keys: seq<string>, result: map<string, T>)
    requires k in kids && r.pending <= r.entries.Keys
    ensures Schedule(r, keys, nameMap, result)
    ensures Misplaced(r, kids, nameMap, k) ==> !Renamed(result, kids, nameMap)
    decreases |r.pending|
  {
    hide Misplaced, Renamed, Produce;
    if r.pending == {} {
      keys, result := [], r.entries;
      if Misplaced(r, kids, nameMap, k) {
        MisplacedIsWrong(r, kids, nameMap, k);
      }
    } else {
      var key :| key in r.pending;
      ProduceAt(r.entries, key, nameMap);
      if Misplaced(r, kids, nameMap, k) {
        YieldKeepsMisplaced(r, key, kids, nameMap, k);
      }
      var rest;
      rest, result := Finish(Yield(r, key, nameMap), kids, nameMap, k);
      keys := [key] + rest;
      assert keys[1..] == rest;
    }
  }

  lemma ScheduleFrom<T>(r: Range<T>, key: string, keys: seq<string>, nameMap: NameMap, result: map<string, T>)
    requires CanYield(r, key) && Schedule(Yield(r, key, nameMap), keys, nameMap, result)
    ensures Schedule(r, [key] + keys, nameMap, result)
  {
    assert ([key] + keys)[1..] == keys;
  }

  /** An entry whose new name is renamed again: yield it and then, if it was inserted there, its
      new name. Some value is now misplaced. */
  lemma ChainGoesWrong<T>(kids: map<string, T>, nameMap: NameMap, k: string) returns (keys: seq<string>, result: map<string, T>)
    requires forall i, j :: i in kids && j in kids && i != j ==> kids[i] != kids[j]
    requires k in kids && NewName(nameMap, NewName(nameMap, k)) != NewName(nameMap, k)
    ensures Schedule(Begin(kids), keys, nameMap, result) && !Renamed(result, kids, nameMap)
  {
    hide Produce, Renamed, Schedule;
    var name := NewName(nameMap, k);
    var r := Yield(Begin(kids), k, nameMap);
    ProduceAt(kids, k, nameMap);
    if name in kids {
      keys, result := Finish(r, kids, nameMap, name);
    } else {
      var again := NewName(nameMap, name);
      var s := Yield(r, name, nameMap);
      ProduceAt(r.entries, name, nameMap);
      var lost := if again in kids && again != k then again else k;
      assert Misplaced(s, kids, nameMap, lost);
      keys, result := Finish(s, kids, nameMap, lost);
      ScheduleFrom(r, name, keys, nameMap, result);
      keys := [name] + keys;
    }
    ScheduleFrom(Begin(kids), k, keys, nameMap, result);
    keys := [k] + keys;
  }

  lemma CollisionGoesWrong<T>(kids: map<string, T>, nameMap: NameMap, j: string, k: string)
    returns (keys: seq<string>, result: map<string, T>)
    requires j in kids && k in kids && kids[j] != kids[k] && NewName(nameMap, j) == NewName(nameMap, k)
    ensures Schedule(Begin(kids), keys, nameMap, result) && !Renamed(result, kids, nameMap)
  {
    keys, result := Finish(Begin(kids), kids, nameMap, k);
    assert NameNow(nameMap, {}, j) == NameNow(nameMap, {}, k);
  }

  lemma StartNamed<T>(kids: map<string, T>, nameMap: NameMap)
    ensures Named(kids, kids, nameMap, kids.Keys)
  {
    forall j | j in kids
      ensures Taken(kids, nameMap, kids.Keys, j)
    {
      assert NameNow(nameMap, kids.Keys, j) == j;
    }
  }

  /** Every schedule ends in the pure renaming exactly when siblings keep different names and no
      new name is renamed again. */
  lemma EveryOrderIff<T(!new)>(kids: map<string, T>, nameMap: NameMap)
    requires forall i, j :: i in kids && j in kids && i != j ==> kids[i] != kids[j]
    ensures EveryOrderRenames(kids, nameMap) <==> Distinguishes(nameMap, kids.Keys) && Settles(nameMap, kids.Keys)
  {
    hide Schedule, Renamed, Named;
    if !Distinguishes(nameMap, kids.Keys) {
      var j, k :| j in kids && k in kids && j != k && NewName(nameMap, j) == NewName(nameMap, k);
      var keys, result := CollisionGoesWrong(kids, nameMap, j, k);
    } else if !Settles(nameMap, kids.Keys) {
      var k :| k in kids && NewName(nameMap, NewName(nameMap, k)) != NewName(nameMap, k);
      var keys, result := ChainGoesWrong(kids, nameMap, k);
    } else {
      StartNamed(kids, nameMap);
      forall keys, result | Schedule(Begin(kids), keys, nameMap, result)
        ensures Renamed(result, kids, nameMap)
      {
        ScheduleRenames(Begin(kids), keys, kids, nameMap, result);
      }
    }
  }

  /** A chain of names, or two siblings of one new name, go wrong in some order; a chain that no
      entry is on, and a name that stands for itself, do not. */
  lemma WhyTheConditions()
    ensures var kids, chain: NameMap := map["a" := 1], map["a" := "b", "b" := "c"]; !EveryOrderRenames(kids, chain)
    ensures var kids, merge: NameMap := map["a" := 1, "b" := 2], map["a" := "b"]; !EveryOrderRenames(kids, merge)
    ensures var kids, fixed: NameMap := map["a" := 1], map["a" := "b", "b" := "b", "x" := "y", "y" := "z"];
      EveryOrderRenames(kids, fixed)
  {
    hide EveryOrderRenames;
    var one, two := map["a" := 1], map["a" := 1, "b" := 2];
    var chain: NameMap, merge: NameMap := map["a" := "b", "b" := "c"], map["a" := "b"];
    var fixed: NameMap := map["a" := "b", "b" := "b", "x" := "y", "y" := "z"];
    EveryOrderIff(one, chain);
    EveryOrderIff(two, merge);
    EveryOrderIff(one, fixed);
    assert "a" in one.Keys && NewName(chain, NewName(chain, "a")) == "c";
    assert "a" in two.Keys && "b" in two.Keys && NewName(merge, "a") == NewName(merge, "b");
  }
}
