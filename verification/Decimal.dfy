/** Base-10 printing and parsing of 64-bit integers, as the Go standard library's
    strconv.FormatInt / strconv.ParseInt with base 10 (and strconv.Itoa). */
module Decimal {
  import opened Wrappers

  const MIN_INT64 := -0x8000_0000_0000_0000
  const MAX_INT64 := 0x7FFF_FFFF_FFFF_FFFF

  predicate IsDigit(c: char) {
    '0' <= c <= '9'
  }

  predicate AllDigits(s: string) {
    forall i :: 0 <= i < |s| ==> IsDigit(s[i])
  }

  function DigitChar(d: nat): char
    requires d < 10
  {
    '0' + d as char
  }

  function DigitValue(c: char): nat
    requires IsDigit(c)
  {
    c as int - '0' as int
  }

  /** The canonical numeral: no leading zero, "0" for zero. */
  function Digits(n: nat): string {
    if n < 10 then [DigitChar(n)] else Digits(n / 10) + [DigitChar(n % 10)]
  }

  lemma {:induction false} DigitsAreDigits(n: nat)
    ensures |Digits(n)| > 0 && AllDigits(Digits(n))
  {
    if n >= 10 {
      DigitsAreDigits(n / 10);
    }
  }

  function NatOf(s: string): nat
    requires AllDigits(s)
  {
    if s == "" then 0 else 10 * NatOf(s[..|s| - 1]) + DigitValue(s[|s| - 1])
  }

  function FormatInt(n: int): string {
    if n < 0 then "-" + Digits(-n) else Digits(n)
  }

  /** At least one digit and nothing else. */
  function ParseNat(s: string): Option<nat> {
    if s != "" && AllDigits(s) then Some(NatOf(s)) else None
  }

  /** An optional sign, a numeral, and a value in range. */
  function ParseInt(s: string): (r: Option<int>)
    ensures r.Some? ==> MIN_INT64 <= r.value <= MAX_INT64
  {
    if s == "" then None
    else
      var magnitude := ParseNat(if s[0] == '-' || s[0] == '+' then s[1..] else s);
      if magnitude.None? then None
      else InRange(Signed(s[0] == '-', magnitude.value))
  }

  function Signed(negative: bool, magnitude: int): int {
    if negative then -magnitude else magnitude
  }

  function InRange(n: int): Option<int> {
    if MIN_INT64 <= n <= MAX_INT64 then Some(n) else None
  }

  lemma {:induction false} NatOfDigits(n: nat)
    ensures AllDigits(Digits(n)) && NatOf(Digits(n)) == n
  {
    DigitsAreDigits(n);
    if n >= 10 {
      NatOfDigits(n / 10);
      assert Digits(n)[..|Digits(n)| - 1] == Digits(n / 10);
    }
  }

  lemma {:induction false} NatOfPadded(zeros: string, s: string)
    requires forall i :: 0 <= i < |zeros| ==> zeros[i] == '0'
    requires AllDigits(s)
    ensures AllDigits(zeros + s) && NatOf(zeros + s) == NatOf(s)
  {
    if s == "" {
      assert zeros + s == zeros;
      if zeros != "" {
        var init := zeros[..|zeros| - 1];
        NatOfPadded(init, "");
        assert init + "" == init;
      }
    } else {
      var init := s[..|s| - 1];
      NatOfPadded(zeros, init);
      assert (zeros + s)[..|zeros + s| - 1] == zeros + init;
    }
  }

  lemma ParseDigits(n: nat)
    ensures Digits(n) != "" && IsDigit(Digits(n)[0]) && ParseNat(Digits(n)) == Some(n)
  {
    DigitsAreDigits(n);
    NatOfDigits(n);
  }

  lemma ParseFormat(n: int)
    requires MIN_INT64 <= n <= MAX_INT64
    ensures ParseInt(FormatInt(n)) == Some(n)
  {
    if n < 0 {
      ParseDigits(-n);
      assert FormatInt(n)[1..] == Digits(-n);
    } else {
      ParseDigits(n);
    }
  }

  lemma FormatInjective(a: int, b: int)
    requires MIN_INT64 <= a <= MAX_INT64 && MIN_INT64 <= b <= MAX_INT64
    requires FormatInt(a) == FormatInt(b)
    ensures a == b
  {
    ParseFormat(a);
    ParseFormat(b);
  }

  /** Exactly the 64-bit integers can be read back. */
  lemma Limits(n: int)
    ensures ParseInt(FormatInt(n)) ==
      if -9223372036854775808 <= n <= 9223372036854775807 then Some(n) else None
  {
    hide Digits;
    if n < 0 {
      ParseDigits(-n);
      assert FormatInt(n)[1..] == Digits(-n);
    } else {
      ParseDigits(n);
    }
  }

  /** The numeral of `n`, digit by digit. */
  lemma NumeralDigits(n: nat)
    ensures var s := FormatInt(n);
      && s != "" && s[|s| - 1] == "0123456789"[n % 10]
      && (n < 10 ==> |s| == 1)
      && (n >= 10 ==> s[..|s| - 1] == FormatInt(n / 10))
    ensures n > 0 ==> FormatInt(-(n as int)) == "-" + FormatInt(n)
  {
    hide Digits;
    DigitsStep(n);
  }

  lemma DigitsStep(n: nat)
    ensures Digits(n) == if n < 10 then ["0123456789"[n]] else Digits(n / 10) + ["0123456789"[n % 10]]
  {
    TableDigit(n % 10);
  }

  lemma TableDigit(d: nat)
    requires d < 10
    ensures DigitChar(d) == "0123456789"[d]
  {
  }

  lemma AppendDigit(m: nat, d: nat)
    requires d < 10
    ensures Digits(10 * m + d) == (if m == 0 then "" else Digits(m)) + [DigitChar(d)]
  {
    assert (10 * m + d) / 10 == m && (10 * m + d) % 10 == d;
  }

  predicate OnlyZeros(s: string) {
    forall k :: 0 <= k < |s| ==> s[k] == '0'
  }

  /** Any run of digits is a numeral behind some zeros. */
  lemma {:induction false} ZerosAndNumeral(s: string) returns (zeros: string)
    requires s != "" && AllDigits(s)
    ensures OnlyZeros(zeros) && s == zeros + Digits(NatOf(s))
  {
    hide Digits;
    var init, c := s[..|s| - 1], s[|s| - 1];
    assert s == init + [c];
    AppendDigit(NatOf(init), DigitValue(c));
    assert DigitChar(DigitValue(c)) == c;
    if init == "" {
      zeros := "";
    } else {
      zeros := ZerosAndNumeral(init);
      if NatOf(init) == 0 {
        AppendDigit(0, 0);
        zeros := init;
      }
    }
  }

  /** `s` is a numeral of magnitude `m`, with or without a sign and zeros in front. */
  predicate Spells(s: string, sign: string, zeros: string, m: nat) {
    (sign == "" || sign == "+" || sign == "-") && OnlyZeros(zeros) && s == sign + zeros + FormatInt(m)
  }

  /** What parses: a numeral, within 64 bits. */
  lemma ParseIntMeaning(s: string, n: int)
    ensures ParseInt(s) == Some(n) <==>
      && -9223372036854775808 <= n <= 9223372036854775807
      && exists sign, zeros, m: nat :: Spells(s, sign, zeros, m) && n == if sign == "-" then 0 - m else m
  {
    hide Digits, NatOf;
    if ParseInt(s) == Some(n) {
      var sign := if s[0] == '-' || s[0] == '+' then s[..1] else "";
      var rest := s[|sign|..];
      var zeros := ZerosAndNumeral(rest);
      assert s == sign + rest;
      assert Spells(s, sign, zeros, NatOf(rest));
    }
    forall sign, zeros, m: nat | Spells(s, sign, zeros, m)
      ensures ParseInt(s) == InRange(Signed(sign == "-", m))
    {
      ReadSpelled(s, sign, zeros, m);
    }
  }

  lemma ReadSpelled(s: string, sign: string, zeros: string, m: nat)
    requires Spells(s, sign, zeros, m)
    ensures ParseInt(s) == InRange(Signed(sign == "-", m))
  {
    hide Digits, NatOf;
    var rest := zeros + Digits(m);
    DigitsAreDigits(m);
    NatOfDigits(m);
    NatOfPadded(zeros, Digits(m));
    assert s == sign + rest && s[|sign|..] == rest;
    assert IsDigit(rest[0]);
    assert s[0] == if sign == "" then rest[0] else sign[0];
  }
}
