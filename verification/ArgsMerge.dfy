/** Merging argument sets under per-key policies: pkg/argsbuilder/argsbuilder_args.go. */
module ArgsMerge {
  import opened Wrappers
  import opened Distinct
  import opened Text

  type Value = seq<string>

  datatype Policy = Overwrite | Additive | Denied | Prepend | Append | Unrecognised

  /** The policy of a key that has none is Overwrite. */
  function PolicyOf(policies: map<string, Policy>, key: string): Policy {
    if key in policies then policies[key] else Overwrite
  }

  function ValueAt(a: map<string, Value>, key: string): Value {
    if key in a then a[key] else []
  }

  // ---------------------------------------------------------------- the additive policy

  /** The parts, trimmed, without those that are blank. */
  function Cleaned(parts: seq<string>): seq<string> {
    if parts == [] then []
    else
      var last := TrimSpace(parts[|parts| - 1]);
      Cleaned(parts[..|parts| - 1]) + if last == "" then [] else [last]
  }

  /** The values a list stands for: each of its strings may hold several, with commas between. */
  function Tokens(v: Value): seq<string> {
    Cleaned(Split(Join(v, ','), ','))
  }

  function Union(existing: Value, incoming: Value): seq<string> {
    AddNew(FirstAppearances(Tokens(existing)), Tokens(incoming))
  }

  function MergeLists(existing: Value, incoming: Value): Value {
    [Join(Union(existing, incoming), ',')]
  }

  lemma CleanedNone(parts: seq<string>)
    ensures forall acc {:trigger AddNew(acc, Cleaned(parts[..0]))} :: AddNew(acc, Cleaned(parts[..0])) == acc
  {
  }

  lemma CleanedOne(parts: seq<string>, p: string)
    ensures Cleaned(parts + [p]) == Cleaned(parts) + if TrimSpace(p) == "" then [] else [TrimSpace(p)]
  {
    assert (parts + [p])[..|parts|] == parts;
  }

  /** What one more part adds to a list of values. */
  lemma AddPart(acc: seq<string>, parts: seq<string>, k: nat)
    requires k < |parts|
    ensures var before, v := AddNew(acc, Cleaned(parts[..k])), TrimSpace(parts[k]);
      AddNew(acc, Cleaned(parts[..k + 1])) == if v == "" || v in before then before else before + [v]
  {
    assert parts[..k + 1] == parts[..k] + [parts[k]];
    CleanedOne(parts[..k], parts[k]);
    if TrimSpace(parts[k]) == "" {
      assert Cleaned(parts[..k + 1]) == Cleaned(parts[..k]);
    } else {
      AddNewOne(acc, Cleaned(parts[..k]), TrimSpace(parts[k]));
    }
  }

  /** Keep the cleaned, new values at the front of the array they are read from. */
  method Compact(values: array<string>) returns (i: nat, definedValues: set<string>)
    modifies values
    ensures i <= values.Length && values[..i] == FirstAppearances(Cleaned(old(values[..])))
    ensures definedValues == set v | v in values[..i]
  {
    hide AddNew, Cleaned, TrimSpace;
    ghost var parts := values[..];
    CleanedNone(parts);
    definedValues := {};
    i := 0;
    for k := 0 to values.Length
      invariant i <= k
      invariant values[k..] == parts[k..]
      invariant values[..i] == FirstAppearances(Cleaned(parts[..k]))
      invariant definedValues == set v | v in values[..i]
    {
      AddPart([], parts, k);
      assert values[k] == values[k..][0] && values[k + 1..] == values[k..][1..];
      var cleanV := TrimSpace(values[k]);
      if cleanV != "" {
        if cleanV !in definedValues {
          definedValues := definedValues + {cleanV};
          values[i] := cleanV;
          assert values[..i + 1] == values[..i] + [cleanV];
          i := i + 1;
        }
      }
    }
    assert parts[..|parts|] == parts;
  }

  method MergeAdditive(existing: Value, incoming: Value) returns (r: Value)
    ensures r == MergeLists(existing, incoming)
  {
    hide AddNew, Cleaned, TrimSpace, Split, Join;
    var parts := Split(Join(existing, ','), ',');
    var values := new string[|parts|](k requires 0 <= k < |parts| => parts[k]);
    assert values[..] == parts;
    var i, definedValues := Compact(values);
    var merged := values[..i];
    ghost var kept := merged;
    var rest := Split(Join(incoming, ','), ',');
    CleanedNone(rest);
    for k := 0 to |rest|
      invariant merged == AddNew(kept, Cleaned(rest[..k]))
      invariant definedValues == set v | v in merged
    {
      AddPart(kept, rest, k);
      var v := TrimSpace(rest[k]);
      if v != "" {
        if v !in definedValues {
          merged := merged + [v];
          definedValues := definedValues + {v};
        }
      }
    }
    assert rest[..|rest|] == rest;
    return [Join(merged, ',')];
  }

  // ---------------------------------------------------------------- its laws

  /** A single value: trimmed, not blank, without comma. */
  predicate Atomic(v: string) {
    v != "" && TrimSpace(v) == v && ',' !in v
  }

  lemma {:induction false} CleanedIsAtomic(parts: seq<string>)
    requires forall p :: p in parts ==> ',' !in p
    ensures forall v :: v in Cleaned(parts) ==> Atomic(v)
  {
    if parts != [] {
      CleanedIsAtomic(parts[..|parts| - 1]);
      TrimMeaning(parts[|parts| - 1]);
      assert parts[|parts| - 1] in parts;
    }
  }

  lemma {:induction false} CleanedFixed(parts: seq<string>)
    requires forall p :: p in parts ==> Atomic(p)
    ensures Cleaned(parts) == parts
  {
    hide TrimSpace;
    if parts != [] {
      var init, last := parts[..|parts| - 1], parts[|parts| - 1];
      assert parts == init + [last] && last in parts;
      assert forall p :: p in init ==> p in parts;
      hide Cleaned;
      CleanedOne(init, last);
      CleanedFixed(init);
    }
  }

  lemma {:induction false} CleanedConcat(a: seq<string>, b: seq<string>)
    ensures Cleaned(a + b) == Cleaned(a) + Cleaned(b)
  {
    if b == [] {
      assert a + b == a;
    } else {
      hide Cleaned, TrimSpace;
      var init, last := b[..|b| - 1], b[|b| - 1];
      assert b == init + [last] && a + b == a + init + [last];
      CleanedConcat(a, init);
      CleanedOne(init, last);
      CleanedOne(a + init, last);
    }
  }

  /** Where the values are cut into strings does not matter. */
  lemma TokensConcat(v: Value, w: Value)
    ensures Tokens(v + w) == Tokens(v) + Tokens(w)
  {
    assert Cleaned([""]) == [] by {
      CleanedOne([], "");
      assert [] + [""] == [""];
    }
    if v == [] {
      assert v + w == w;
    } else if w == [] {
      assert v + w == v;
    } else {
      JoinConcat(v, w, ',');
      SplitConcat(Join(v, ','), Join(w, ','), ',');
      CleanedConcat(Split(Join(v, ','), ','), Split(Join(w, ','), ','));
    }
  }

  lemma TokensOfJoin(values: seq<string>)
    requires forall v :: v in values ==> Atomic(v)
    ensures Tokens([Join(values, ',')]) == values
  {
    if values == [] {
      CleanedOne([], "");
      assert [] + [""] == [""];
    } else {
      SplitJoin(values, ',');
      CleanedFixed(values);
    }
  }

  /** The union: no duplicates, exactly the values of both lists, the existing ones first and
      in their order; and the merged list stands for exactly these values. */
  lemma UnionMeaning(existing: Value, incoming: Value)
    ensures var u := Union(existing, incoming);
      && NoDuplicates(u)
      && (forall v :: v in u <==> v in Tokens(existing) || v in Tokens(incoming))
      && FirstAppearances(Tokens(existing)) <= u
      && (forall v :: v in u ==> Atomic(v))
      && Tokens(MergeLists(existing, incoming)) == u
  {
    AddNewMeaning([], Tokens(existing));
    AddNewMeaning(FirstAppearances(Tokens(existing)), Tokens(incoming));
    PartsHaveNoSeparator(Join(existing, ','), ',');
    PartsHaveNoSeparator(Join(incoming, ','), ',');
    CleanedIsAtomic(Split(Join(existing, ','), ','));
    CleanedIsAtomic(Split(Join(incoming, ','), ','));
    TokensOfJoin(Union(existing, incoming));
  }

  /** `x` is one of the values a list stands for: not blank, and between commas, with white
      space around it, in one of its strings. */
  ghost predicate StandsFor(list: Value, x: string) {
    x != "" && exists e :: e in list && HasPart(e, x)
  }

  ghost predicate HasPart(e: string, x: string) {
    exists p :: p in Split(e, ',') && TrimSpace(p) == x
  }

  lemma {:induction false} CleanedMembers(parts: seq<string>, x: string)
    ensures x in Cleaned(parts) <==> x != "" && exists p :: p in parts && TrimSpace(p) == x
  {
    hide TrimSpace, Cleaned;
    if parts == [] {
      NothingCleaned();
    } else {
      var init, last := parts[..|parts| - 1], parts[|parts| - 1];
      assert parts == init + [last];
      CleanedOne(init, last);
      CleanedMembers(init, x);
      if x in Cleaned(init) {
        var p :| p in init && TrimSpace(p) == x;
        assert p in parts;
      }
      assert last in parts;
    }
  }

  lemma NothingCleaned()
    ensures Cleaned([]) == []
  {
  }

  lemma StandsForOne(init: Value, last: string, x: string)
    ensures StandsFor(init + [last], x) <==> StandsFor(init, x) || (x != "" && HasPart(last, x))
  {
    hide HasPart;
    var list := init + [last];
    assert last in list && forall e :: e in list <==> e in init || e == last;
  }

  lemma {:induction false} TokensMembers(list: Value, x: string)
    ensures x in Tokens(list) <==> StandsFor(list, x)
  {
    if list == [] {
      CleanedOne([], "");
      assert [] + [""] == [""];
    } else {
      hide Cleaned, TrimSpace, Split, StandsFor;
      var init, last := list[..|list| - 1], list[|list| - 1];
      assert list == init + [last];
      TokensMembers(init, x);
      TokensConcat(init, [last]);
      JoinSingle(last, ',');
      CleanedMembers(Split(last, ','), x);
      StandsForOne(init, last, x);
    }
  }

  /** The one string that an additive merge leaves: the values of both lists, each once, in the
      order of their first appearance, the existing ones first, with commas between. */
  ghost predicate UnionText(result: Value, existing: Value, val: Value) {
    exists u :: result == [Join(u, ',')] && UnionValues(u, existing, val)
  }

  ghost predicate UnionValues(u: seq<string>, existing: Value, val: Value) {
    && NoDuplicates(u)
    && (forall x :: x in u <==> StandsFor(existing, x) || StandsFor(val, x))
    && (forall i, j :: 0 <= i < j < |u| && StandsFor(existing, u[j]) ==> StandsFor(existing, u[i]))
    && InOrderOf(u, Tokens(existing + val))
  }

  lemma MergeListsMeaning(existing: Value, val: Value)
    ensures UnionText(MergeLists(existing, val), existing, val)
  {
    hide UnionValues;
    UnionOfBoth(existing, val);
  }

  lemma UnionOfBoth(existing: Value, val: Value)
    ensures UnionValues(Union(existing, val), existing, val)
  {
    hide Tokens, StandsFor, NoDuplicates, AddNew, InOrderOf;
    var u := Union(existing, val);
    UnionMeaning(existing, val);
    UnionOrder(existing, val);
    forall x
      ensures x in Tokens(existing) <==> StandsFor(existing, x)
      ensures x in Tokens(val) <==> StandsFor(val, x)
    {
      TokensMembers(existing, x);
      TokensMembers(val, x);
    }
    FirstElements(Tokens(existing));
    forall i, j | 0 <= i < j < |u| && StandsFor(existing, u[j])
      ensures StandsFor(existing, u[i])
    {
      ExistingFirst(FirstAppearances(Tokens(existing)), u, i, j);
    }
  }

  lemma FirstElements(s: seq<string>)
    ensures forall x :: x in FirstAppearances(s) <==> x in s
  {
    AddNewMeaning([], s);
  }

  lemma UnionOrder(existing: Value, val: Value)
    ensures InOrderOf(Union(existing, val), Tokens(existing + val))
  {
    hide Tokens;
    TokensConcat(existing, val);
    AddNewAppend([], Tokens(existing), Tokens(val));
    FirstAppearancesOrder(Tokens(existing + val));
  }

  lemma ExistingFirst(first: seq<string>, u: seq<string>, i: nat, j: nat)
    requires first <= u && NoDuplicates(u) && i < j < |u| && u[j] in first
    ensures u[i] in first
  {
    var k :| 0 <= k < |first| && first[k] == u[j];
    assert k == j && first[i] == u[i];
  }

  /** Merging v and then w is merging v ++ w. */
  lemma MergeTwice(existing: Value, v: Value, w: Value)
    ensures MergeLists(MergeLists(existing, v), w) == MergeLists(existing, v + w)
  {
    UnionMeaning(existing, v);
    AddNewFixed(Union(existing, v));
    TokensConcat(v, w);
    AddNewAppend(FirstAppearances(Tokens(existing)), Tokens(v), Tokens(w));
  }

  /** Merging the same values again changes nothing. */
  lemma MergeIdempotent(existing: Value, v: Value)
    ensures MergeLists(MergeLists(existing, v), v) == MergeLists(existing, v)
  {
    UnionMeaning(existing, v);
    AddNewFixed(Union(existing, v));
    AddNewNothing(Union(existing, v), Tokens(v));
  }

  // ---------------------------------------------------------------- whole argument sets

  function MergeValue(policy: Policy, existing: Value, val: Value): Value {
    match policy
    case Overwrite => val
    case Append => existing + val
    case Prepend => val + existing
    case Additive => MergeLists(existing, val)
    case _ => existing
  }

  predicate Writes(policy: Policy) {
    !policy.Denied? && !policy.Unrecognised?
  }

  /** The result once the keys `done` of `b` have been merged into `a`. */
  ghost function MergedOn(a: map<string, Value>, b: map<string, Value>, policies: map<string, Policy>, done: set<string>)
    : map<string, Value>
    requires done <= b.Keys
  {
    map k | k in a.Keys + done && (k in a || Writes(PolicyOf(policies, k))) ::
      if k in done then MergeValue(PolicyOf(policies, k), ValueAt(a, k), b[k]) else a[k]
  }

  lemma MergedOnNone(a: map<string, Value>, b: map<string, Value>, policies: map<string, Policy>)
    ensures MergedOn(a, b, policies, {}) == a
  {
  }

  lemma MergedOnStep(a: map<string, Value>, b: map<string, Value>, policies: map<string, Policy>, done: set<string>, key: string)
    requires done <= b.Keys && key in b && key !in done
    ensures var before, after := MergedOn(a, b, policies, done), MergedOn(a, b, policies, done + {key});
      var policy := PolicyOf(policies, key);
      && ValueAt(before, key) == ValueAt(a, key)
      && after == if Writes(policy) then before[key := MergeValue(policy, ValueAt(a, key), b[key])] else before
  {
  }

  /** What each policy leaves under a key. */
  ghost predicate MergedAs(policy: Policy, existing: Value, val: Value, result: Value) {
    match policy
    case Overwrite => result == val
    case Append => |result| == |existing| + |val| && result[..|existing|] == existing && result[|existing|..] == val
    case Prepend => |result| == |existing| + |val| && result[..|val|] == val && result[|val|..] == existing
    case Additive => UnionText(result, existing, val)
    case _ => result == existing
  }

  lemma MergeValueMeaning(policy: Policy, existing: Value, val: Value)
    ensures MergedAs(policy, existing, val, MergeValue(policy, existing, val))
  {
    hide UnionText, MergeLists;
    MergeListsMeaning(existing, val);
  }

  /** The set after a merge, key by key: a key of `b` is merged under its policy, by Overwrite if
      it has none; any other key, and a key whose policy is not recognised, is left alone. */
  ghost predicate KeyByKey(a: map<string, Value>, b: map<string, Value>, policies: map<string, Policy>, after: map<string, Value>) {
    && (forall k :: k in after <==> k in a || (k in b && (k in policies ==> !policies[k].Denied? && !policies[k].Unrecognised?)))
    && (forall k :: k in after && k !in b ==> after[k] == a[k])
    && (forall k :: k in after && k in b ==>
         MergedAs(if k in policies then policies[k] else Overwrite, if k in a then a[k] else [], b[k], after[k]))
  }

  lemma MergedKeyByKey(a: map<string, Value>, b: map<string, Value>, policies: map<string, Policy>)
    ensures KeyByKey(a, b, policies, MergedOn(a, b, policies, b.Keys))
  {
    hide MergedAs, MergeValue;
    forall policy, existing, val
      ensures MergedAs(policy, existing, val, MergeValue(policy, existing, val))
    {
      MergeValueMeaning(policy, existing, val);
    }
  }

  /** One of the keys must not be merged. */
  predicate Denies(policies: map<string, Policy>, keys: set<string>) {
    exists k :: k in keys && PolicyOf(policies, k) == Denied
  }

  class Args {
    var values: map<string, Value>

    constructor (values: map<string, Value>)
      ensures this.values == values
    {
      this.values := values;
    }

    /** The policies that do not stop the merge. */
    method MergeKey(policy: Policy, key: string, val: Value)
      requires !policy.Denied?
      modifies this
      ensures values == if Writes(policy)
        then old(values)[key := MergeValue(policy, ValueAt(old(values), key), val)] else old(values)
    {
      match policy {
        case Overwrite =>
          values := values[key := val];
        case Append =>
          values := values[key := ValueAt(values, key) + val];
        case Prepend =>
          values := values[key := val + ValueAt(values, key)];
        case Additive =>
          var merged := MergeAdditive(ValueAt(values, key), val);
          values := values[key := merged];
        case Unrecognised =>
      }
    }

    /** Merge in the arbitrary order in which a map yields its keys. Without a denied key the
        result is a function of the two sets; with one, some of the other keys are merged. */
    method Merge(b: map<string, Value>, policies: map<string, Policy>) returns (denied: Option<string>)
      modifies this
      ensures denied.Some? <==> Denies(policies, b.Keys)
      ensures denied.Some? ==> denied.value in b && PolicyOf(policies, denied.value) == Denied
      ensures denied.None? ==> values == MergedOn(old(values), b, policies, b.Keys)
      ensures denied.None? ==> KeyByKey(old(values), b, policies, values)
      ensures denied.Some? ==> exists done :: done < b.Keys && values == MergedOn(old(values), b, policies, done)
    {
      hide MergedOn, KeyByKey;
      ghost var done: set<string> := {};
      MergedOnNone(values, b, policies);
      var left := b.Keys;
      while left != {}
        invariant left <= b.Keys && done == b.Keys - left
        invariant !Denies(policies, done)
        invariant values == MergedOn(old(values), b, policies, done)
      {
        var key :| key in left;
        var policy := PolicyOf(policies, key);
        if policy.Denied? {
          assert done < b.Keys;
          return Some(key);
        }
        MergedOnStep(old(values), b, policies, done, key);
        MergeKey(policy, key, b[key]);
        left := left - {key};
        done := done + {key};
      }
      assert done == b.Keys;
      MergedKeyByKey(old(values), b, policies);
      return None;
    }
  }
}
