/** Order-preserving union of lists, the shape shared by the deduplicating loops. */
module Distinct {

  /** `acc`, then each element of `s` that is not there yet. */
  function AddNew<T(==)>(acc: seq<T>, s: seq<T>): seq<T> {
    if s == [] then acc
    else
      var r, last := AddNew(acc, s[..|s| - 1]), s[|s| - 1];
      if last in r then r else r + [last]
  }

  /** The elements of `s` in order of first appearance, each once. */
  function FirstAppearances<T(==)>(s: seq<T>): seq<T> {
    AddNew([], s)
  }

  predicate NoDuplicates<T(==)>(s: seq<T>) {
    forall i, j :: 0 <= i < j < |s| ==> s[i] != s[j]
  }

  lemma AddNewOne<T>(acc: seq<T>, s: seq<T>, v: T)
    ensures AddNew(acc, s + [v]) == if v in AddNew(acc, s) then AddNew(acc, s) else AddNew(acc, s) + [v]
  {
    assert (s + [v])[..|s|] == s;
  }

  lemma {:induction false} AddNewAppend<T>(acc: seq<T>, s: seq<T>, t: seq<T>)
    ensures AddNew(acc, s + t) == AddNew(AddNew(acc, s), t)
  {
    if t == [] {
      assert s + t == s;
    } else {
      var init, last := t[..|t| - 1], t[|t| - 1];
      AddNewAppend(acc, s, init);
      AddNewOne(acc, s + init, last);
      assert s + t == (s + init) + [last];
    }
  }

  /** A union: the same elements, no duplicate if there was none, and `acc` first. */
  lemma {:induction false} AddNewMeaning<T>(acc: seq<T>, s: seq<T>)
    requires NoDuplicates(acc)
    ensures var u := AddNew(acc, s);
      NoDuplicates(u) && acc <= u && forall v :: v in u <==> v in acc || v in s
  {
    if s != [] {
      AddNewMeaning(acc, s[..|s| - 1]);
      assert s == s[..|s| - 1] + [s[|s| - 1]];
    }
  }

  lemma {:induction false} AddNewNothing<T>(acc: seq<T>, s: seq<T>)
    requires forall v :: v in s ==> v in acc
    ensures AddNew(acc, s) == acc
  {
    if s != [] {
      AddNewNothing(acc, s[..|s| - 1]);
    }
  }

  lemma {:induction false} AddNewFixed<T>(s: seq<T>)
    requires NoDuplicates(s)
    ensures FirstAppearances(s) == s
  {
    if s != [] {
      AddNewFixed(s[..|s| - 1]);
      assert s == s[..|s| - 1] + [s[|s| - 1]];
    }
  }

  /** Where `v` first occurs. */
  function FirstIndex<T(==)>(s: seq<T>, v: T): (k: nat)
    requires v in s
    ensures k < |s| && s[k] == v && v !in s[..k]
  {
    if s[0] == v then 0
    else
      assert v in s[1..];
      1 + FirstIndex(s[1..], v)
  }

  lemma InTake<T>(s: seq<T>, k: nat, n: nat)
    requires k < |s| && n <= |s|
    ensures k < n ==> s[k] in s[..n]
  {
    if k < n {
      assert s[..n][k] == s[k];
    }
  }

  lemma FirstIndexUnique<T>(s: seq<T>, v: T, k: nat)
    requires k < |s| && s[k] == v && v !in s[..k]
    ensures FirstIndex(s, v) == k
  {
    var f := FirstIndex(s, v);
    InTake(s, f, k);
    InTake(s, k, f);
  }

  lemma FirstIndexAppend<T>(s: seq<T>, last: T, v: T)
    requires v in s || v == last
    ensures v in s + [last]
    ensures FirstIndex(s + [last], v) == if v in s then FirstIndex(s, v) else |s|
  {
    var longer := s + [last];
    if v in s {
      var k := FirstIndex(s, v);
      assert longer[k] == v && longer[..k] == s[..k];
      FirstIndexUnique(longer, v, k);
    } else {
      assert longer[|s|] == v && longer[..|s|] == s;
      FirstIndexUnique(longer, v, |s|);
    }
  }

  /** The elements of `u` are those of `s`, in the order in which they first appear there. */
  ghost predicate InOrderOf<T(!new)>(u: seq<T>, s: seq<T>) {
    && (forall v :: v in u <==> v in s)
    && (forall i, j :: 0 <= i < j < |u| ==> FirstIndex(s, u[i]) < FirstIndex(s, u[j]))
  }

  lemma InOrderAppend<T(!new)>(u: seq<T>, s: seq<T>, last: T)
    requires InOrderOf(u, s)
    ensures InOrderOf(if last in u then u else u + [last], s + [last])
  {
    forall v | v in s || v == last
      ensures v in s + [last] && FirstIndex(s + [last], v) == if v in s then FirstIndex(s, v) else |s|
    {
      FirstIndexAppend(s, last, v);
    }
    hide FirstIndex;
  }

  lemma {:induction false} FirstAppearancesOrder<T(!new)>(s: seq<T>)
    ensures InOrderOf(FirstAppearances(s), s)
  {
    if s != [] {
      hide AddNew, InOrderOf;
      var init, last := s[..|s| - 1], s[|s| - 1];
      assert s == init + [last];
      FirstAppearancesOrder(init);
      AddNewOne([], init, last);
      InOrderAppend(FirstAppearances(init), init, last);
    }
  }
}
