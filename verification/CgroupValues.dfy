/** Cgroup values, decimals with a fixed number of fraction digits: internal/pkg/cgroups/value.go. */
module CgroupValues {
  import opened Wrappers
  import opened Decimal

  type Int64 = n: int | MIN_INT64 <= n <= MAX_INT64

  datatype Value = Value(val: Int64, frac: nat, isMax: bool, isSet: bool)

  function Zeros(k: nat): string {
    seq(k, _ => '0')
  }

  /** At least one digit stays before the point. */
  function Padded(s: string, frac: nat): string {
    if |s| < frac + 1 then Zeros(frac + 1 - |s|) + s else s
  }

  function ToString(v: Value): string {
    if !v.isSet then "unset"
    else if v.isMax then "max"
    else
      var s := FormatInt(v.val);
      if v.frac == 0 then s
      else
        var p := Padded(s, v.frac);
        p[..|p| - v.frac] + "." + p[|p| - v.frac..]
  }

  /** Where the first point is. */
  function PointAt(s: string, from: nat): (r: Option<nat>)
    ensures r.Some? ==> from <= r.value < |s| && s[r.value] == '.'
    ensures r.Some? ==> forall k :: from <= k < r.value ==> s[k] != '.'
    ensures r.None? ==> forall k :: from <= k < |s| ==> s[k] != '.'
    decreases |s| - from
  {
    if from >= |s| then None else if s[from] == '.' then Some(from) else PointAt(s, from + 1)
  }

  function ParseValue(s: string): Option<Value> {
    if s == "max" then Some(Value(0, 0, true, true))
    else
      var point := PointAt(s, 0);
      var digits := if point.Some? then s[..point.value] + s[point.value + 1..] else s;
      var frac := if point.Some? then |s| - point.value - 1 else 0;
      var val := ParseInt(digits);
      if val.Some? then Some(Value(val.value, frac, false, true)) else None
  }

  /** The values whose text reads back as the value. */
  predicate Readable(v: Value) {
    v.isSet && if v.isMax then v.val == 0 && v.frac == 0 else v.val >= 0 || v.frac < |FormatInt(v.val)|
  }

  lemma FormatHasNoPoint(n: int)
    ensures FormatInt(n) != "" && forall k :: 0 <= k < |FormatInt(n)| ==> FormatInt(n)[k] != '.'
    ensures FormatInt(n) != "max"
  {
    DigitsAreDigits(if n < 0 then -n else n);
    assert FormatInt(n)[|FormatInt(n)| - 1] != 'x';
  }

  lemma {:induction false} FirstPoint(s: string, from: nat, k: nat)
    requires from <= k < |s| && s[k] == '.' && forall j :: from <= j < k ==> s[j] != '.'
    ensures PointAt(s, from) == Some(k)
    decreases k - from
  {
    if from < k {
      FirstPoint(s, from + 1, k);
    }
  }

  /** Splitting at the point and joining again loses nothing but the point. */
  lemma JoinAtPoint(p: string, frac: nat)
    requires frac < |p| && forall k :: 0 <= k < |p| ==> p[k] != '.'
    ensures var s := p[..|p| - frac] + "." + p[|p| - frac..];
      s != "max" && PointAt(s, 0) == Some(|p| - frac) && s[..|p| - frac] + s[|p| - frac + 1..] == p
  {
    var s := p[..|p| - frac] + "." + p[|p| - frac..];
    assert s[|p| - frac] == '.';
    FirstPoint(s, 0, |p| - frac);
    assert s[..|p| - frac] + s[|p| - frac + 1..] == p;
  }

  lemma ParseShown(v: Value)
    requires v.isSet && !v.isMax
    ensures var val := ParseInt(Padded(FormatInt(v.val), v.frac));
      ParseValue(ToString(v)) == if val.Some? then Some(Value(val.value, v.frac, false, true)) else None
  {
    hide FormatInt, ParseInt, PointAt;
    var s := FormatInt(v.val);
    FormatHasNoPoint(v.val);
    if v.frac > 0 {
      JoinAtPoint(Padded(s, v.frac), v.frac);
    }
  }

  /** The text of a value: a word for the two special ones, and otherwise the decimal numeral,
      with a point before the last `frac` digits and zeros in front where there are too few. */
  lemma TextMeaning(v: Value)
    ensures !v.isSet ==> ToString(v) == "unset"
    ensures v.isSet && v.isMax ==> ToString(v) == "max"
    ensures v.isSet && !v.isMax && v.frac == 0 ==> ToString(v) == FormatInt(v.val)
    ensures v.isSet && !v.isMax && v.frac > 0 ==>
      var t, numeral := ToString(v), FormatInt(v.val);
      && |t| >= v.frac + 2
      && var point := |t| - v.frac - 1;
      && t[point] == '.'
      && var digits := t[..point] + t[point + 1..];
      && numeral <= digits[|digits| - |numeral|..]
      && (forall k :: 0 <= k < |digits| - |numeral| ==> digits[k] == '0')
      && (|digits| > |numeral| ==> point == 1)
  {
    FormatHasNoPoint(v.val);
    hide FormatInt;
  }

  lemma ZerosThenDigits(k: nat, n: Int64)
    requires k > 0 && n >= 0
    ensures ParseInt(Zeros(k) + Digits(n)) == Some(n)
  {
    hide NatOf, Digits;
    DigitsAreDigits(n);
    NatOfPadded(Zeros(k), Digits(n));
    NatOfDigits(n);
    assert (Zeros(k) + Digits(n))[0] == '0';
  }

  lemma ZerosThenSign(k: nat, s: string)
    requires k > 0
    ensures ParseInt(Zeros(k) + ("-" + s)) == None
  {
    hide NatOf;
    var padded := Zeros(k) + ("-" + s);
    assert padded[0] == '0' && padded[k] == '-';
  }

  lemma ParsePadded(n: Int64, frac: nat)
    ensures ParseInt(Padded(FormatInt(n), frac)) == if n >= 0 || frac < |FormatInt(n)| then Some(n) else None
  {
    hide ParseInt, Digits, Zeros;
    ParseFormat(n);
    var s := FormatInt(n);
    if |s| < frac + 1 {
      if n >= 0 {
        ZerosThenDigits(frac + 1 - |s|, n);
      } else {
        ZerosThenSign(frac + 1 - |s|, Digits(-(n as int)));
      }
    }
  }

  /** Printing then parsing gives back the value, exactly for the readable ones: "max" in its
      one form, every non-negative value with any number of fraction digits, and a negative
      value with no more fraction digits than it has digits (its text is one sign longer). */
  lemma RoundTrip(v: Value)
    ensures ParseValue(ToString(v)) == Some(v) <==> Readable(v)
  {
    if v.isSet && !v.isMax {
      ParseShown(v);
      ParsePadded(v.val, v.frac);
    } else if !v.isSet {
      assert PointAt("unset", 0).None?;
      assert !IsDigit("unset"[0]);
    }
  }

  /** "-0.05" parses, and prints as text that does not parse. */
  lemma UnstableNegative()
    ensures ParseValue("-0.05").Some? && ParseValue(ToString(ParseValue("-0.05").value)).None?
  {
    var s := "-0.05";
    FirstPoint(s, 0, 2);
    assert s[..2] + s[3..] == "-005";
    MinusFive();
    var v := Value(-5, 2, false, true);
    assert ParseValue(s) == Some(v);
    ParseShown(v);
    ParsePadded(-5, 2);
    hide ParseInt;
  }

  /** What parses: "max", or an integer with at most one point put into it; the digits after the
      first point are counted. */
  lemma ParseMeaning(s: string, v: Value)
    ensures ParseValue(s) == Some(v) <==>
      || (s == "max" && v == Value(0, 0, true, true))
      || (s != "max" && v.isSet && !v.isMax &&
            if '.' !in s then v.frac == 0 && ParseInt(s) == Some(v.val)
            else exists a, b :: s == a + "." + b && '.' !in a && v.frac == |b| && ParseInt(a + b) == Some(v.val))
  {
    hide ParseInt;
    hide PointAt;
    var point := PointAt(s, 0);
    if point.Some? {
      var a, b := s[..point.value], s[point.value + 1..];
      assert s == a + "." + b && s[point.value] in s;
      forall x: string, y: string | s == x + "." + y && '.' !in x
        ensures x == a && y == b
      {
        PointBetween(x, y);
      }
    }
  }

  lemma PointBetween(a: string, b: string)
    requires '.' !in a
    ensures PointAt(a + "." + b, 0) == Some(|a|)
    ensures (a + "." + b)[..|a|] == a && (a + "." + b)[|a| + 1..] == b
  {
    FirstPoint(a + "." + b, 0, |a|);
  }

  lemma MinusFive()
    ensures ParseInt("-005") == Some(-5)
  {
    assert "-005"[1..] == "005";
    assert "005"[..2] == "00" && "00"[..1] == "0" && "0"[..0] == "";
    assert NatOf("0") == 0 && NatOf("00") == 0 && NatOf("005") == 5;
  }
}
