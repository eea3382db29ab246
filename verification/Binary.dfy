/** Little-endian integers and 16-bit text, as used by the EFI structures. */
module Binary {

  type byte = n: int | 0 <= n < 0x100
  type uint16 = n: int | 0 <= n < 0x1_0000
  type uint32 = n: int | 0 <= n < 0x1_0000_0000
  type uint64 = n: int | 0 <= n < 0x1_0000_0000_0000_0000

  /** What the decoder puts in place of a trailing single byte. */
  const REPLACEMENT: uint16 := 0xFFFD

  function PutU16(n: uint16): (b: seq<byte>)
    ensures |b| == 2
  {
    [n % 0x100, n / 0x100]
  }

  function U16(b: seq<byte>): uint16
    requires |b| == 2
  {
    b[0] + 0x100 * (b[1] as int)
  }

  function Pow256(k: nat): nat {
    if k == 0 then 1 else 0x100 * Pow256(k - 1)
  }

  /** The low `k` bytes of `n`. */
  function PutLE(n: nat, k: nat): (b: seq<byte>)
    ensures |b| == k
  {
    if k == 0 then [] else [n % 0x100] + PutLE(n / 0x100, k - 1)
  }

  function LE(b: seq<byte>): (n: nat)
    ensures n < Pow256(|b|)
  {
    if b == [] then 0 else b[0] + 0x100 * LE(b[1..])
  }

  lemma {:induction false} LEOfPut(n: nat, k: nat)
    requires n < Pow256(k)
    ensures LE(PutLE(n, k)) == n
  {
    if k > 0 {
      LEOfPut(n / 0x100, k - 1);
      assert PutLE(n, k)[1..] == PutLE(n / 0x100, k - 1);
    }
  }

  lemma LowByte(lo: byte, hi: nat)
    ensures (lo + 0x100 * hi) % 0x100 == lo && (lo + 0x100 * hi) / 0x100 == hi
  {
  }

  lemma {:induction false} PutOfLE(b: seq<byte>)
    ensures PutLE(LE(b), |b|) == b
  {
    if b != [] {
      var hi := LE(b[1..]);
      PutOfLE(b[1..]);
      LowByte(b[0], hi);
      assert PutLE(LE(b), |b|) == [b[0]] + PutLE(hi, |b| - 1);
    }
  }

  lemma Widths()
    ensures Pow256(4) == 0x1_0000_0000 && Pow256(8) == 0x1_0000_0000_0000_0000
  {
    assert Pow256(1) == 0x100;
    assert Pow256(2) == 0x1_0000;
    assert Pow256(3) == 0x100_0000;
    assert Pow256(4) == 0x1_0000_0000;
    assert Pow256(5) == 0x100_0000_0000;
    assert Pow256(6) == 0x1_0000_0000_0000;
    assert Pow256(7) == 0x100_0000_0000_0000;
  }

  // ---------------------------------------------------------------- UCS-2 text

  /** Two bytes a unit, low byte first. */
  function Encode(units: seq<uint16>): (b: seq<byte>)
    ensures |b| == 2 * |units|
  {
    seq(2 * |units|, k requires 0 <= k < 2 * |units| =>
      if k % 2 == 0 then units[k / 2] % 0x100 else units[k / 2] / 0x100)
  }

  function Decode(b: seq<byte>): (units: seq<uint16>)
    ensures |units| == (|b| + 1) / 2
  {
    seq((|b| + 1) / 2, i requires 0 <= i < (|b| + 1) / 2 =>
      if 2 * i + 1 < |b| then b[2 * i] + 0x100 * b[2 * i + 1] else REPLACEMENT)
  }

  lemma DecodeOdd(b: seq<byte>)
    ensures |b| % 2 == 1 ==> Decode(b)[|b| / 2] == REPLACEMENT
  {
  }

  lemma DecodeEncode(units: seq<uint16>)
    ensures Decode(Encode(units)) == units
  {
    var b := Encode(units);
    forall i | 0 <= i < |units|
      ensures Decode(b)[i] == units[i]
    {
      assert b[2 * i] == units[i] % 0x100 && b[2 * i + 1] == units[i] / 0x100;
      assert Decode(b)[i] == units[i] % 0x100 + 0x100 * (units[i] / 0x100);
    }
  }

  lemma EncodeDecode(b: seq<byte>)
    requires |b| % 2 == 0
    ensures Encode(Decode(b)) == b
  {
    var units := Decode(b);
    forall i | 0 <= i < |units|
      ensures Encode(units)[2 * i] == b[2 * i] && Encode(units)[2 * i + 1] == b[2 * i + 1]
    {
      var lo: int, hi: int := b[2 * i], b[2 * i + 1];
      assert units[i] == lo + 0x100 * hi;
    }
    forall k | 0 <= k < |b|
      ensures Encode(units)[k] == b[k]
    {
      assert k == 2 * (k / 2) || k == 2 * (k / 2) + 1;
    }
  }

  lemma EncodeAppend(a: seq<uint16>, b: seq<uint16>)
    ensures Encode(a + b) == Encode(a) + Encode(b)
  {
    forall k | 0 <= k < 2 * |a| + 2 * |b|
      ensures Encode(a + b)[k] == (Encode(a) + Encode(b))[k]
    {
      if k >= 2 * |a| {
        assert (k - 2 * |a|) / 2 == k / 2 - |a| && (k - 2 * |a|) % 2 == k % 2;
      }
    }
  }
}
