/** The byte layouts of device paths and load options as relations between bytes and values,
    written down without any printer or parser, and the proof that the printers and parsers of
    internal/pkg/efivarfs/devicepath.go and boot.go write and read exactly these layouts. */
module WireFormat {
  import opened Wrappers
  import opened Binary
  import opened DevicePaths
  import opened LoadOptions

  // ---------------------------------------------------------------- numbers and text

  function Pair(low: int, high: int): int {
    low + 0x100 * high
  }

  function Number4(b: seq<byte>): int
    requires |b| == 4
  {
    Pair(b[0], b[1]) + 0x1_0000 * Pair(b[2], b[3])
  }

  function Number8(b: seq<byte>): int
    requires |b| == 8
  {
    Number4(b[..4]) + 0x1_0000_0000 * Number4(b[4..])
  }

  lemma LEIsNumber4(b: seq<byte>)
    requires |b| == 4
    ensures LE(b) == Number4(b)
  {
    assert LE(b[3..]) == b[3] + 0x100 * LE(b[4..]);
    assert b[1..][1..] == b[2..] && b[2..][1..] == b[3..] && b[3..][1..] == b[4..];
    assert LE(b[2..]) == b[2] + 0x100 * LE(b[3..]);
    assert LE(b[1..]) == b[1] + 0x100 * LE(b[2..]);
  }

  lemma {:induction false} LESplit(b: seq<byte>, k: nat)
    requires k <= |b|
    ensures LE(b) == LE(b[..k]) + Pow256(k) * LE(b[k..])
  {
    if k == 0 {
      assert b[0..] == b;
    } else {
      LESplit(b[1..], k - 1);
      assert b[1..][..k - 1] == b[..k][1..] && b[1..][k - 1..] == b[k..];
      assert LE(b) == b[0] + 0x100 * LE(b[1..]);
      assert LE(b[..k]) == b[0] + 0x100 * LE(b[..k][1..]);
      Regroup(b[0], LE(b[..k][1..]), Pow256(k - 1), LE(b[k..]));
    }
  }

  lemma Regroup(a: int, x: int, p: int, y: int)
    ensures a + 0x100 * (x + p * y) == (a + 0x100 * x) + (0x100 * p) * y
  {
    assert (0x100 * p) * y == 0x100 * (p * y);
  }

  lemma LEIsNumber8(b: seq<byte>)
    requires |b| == 8
    ensures LE(b) == Number8(b)
  {
    Widths();
    LESplit(b, 4);
    LEIsNumber4(b[..4]);
    LEIsNumber4(b[4..]);
  }

  lemma PutIffLE(b: seq<byte>, n: nat)
    requires n < Pow256(|b|)
    ensures PutLE(n, |b|) == b <==> LE(b) == n
  {
    LEOfPut(n, |b|);
    PutOfLE(b);
  }

  lemma Put4(b: seq<byte>, n: uint32)
    requires |b| == 4
    ensures PutLE(n, 4) == b <==> Number4(b) == n
  {
    Widths();
    LEIsNumber4(b);
    PutIffLE(b, n);
  }

  lemma Put8(b: seq<byte>, n: uint64)
    requires |b| == 8
    ensures PutLE(n, 8) == b <==> Number8(b) == n
  {
    Widths();
    LEIsNumber8(b);
    PutIffLE(b, n);
  }

  /** Two bytes a unit, low byte first. */
  predicate UnitsIn(b: seq<byte>, units: seq<uint16>) {
    |b| == 2 * |units| && forall i :: 0 <= i < |units| ==> units[i] == Pair(b[2 * i], b[2 * i + 1])
  }

  lemma DecodeOnWire(b: seq<byte>, units: seq<uint16>)
    requires |b| == 2 * |units|
    ensures Decode(b) == units <==> UnitsIn(b, units)
  {
    var d := Decode(b);
    assert |d| == |units|;
    forall i | 0 <= i < |units|
      ensures d[i] == Pair(b[2 * i], b[2 * i + 1])
    {
    }
    hide Decode;
  }

  lemma UnitsOnWire(b: seq<byte>, units: seq<uint16>)
    ensures Encode(units) == b <==> UnitsIn(b, units)
    ensures |b| % 2 == 0 ==> (Decode(b) == units <==> UnitsIn(b, units))
  {
    hide Encode, Decode;
    DecodeEncode(units);
    if |b| == 2 * |units| {
      DecodeOnWire(b, units);
      EncodeDecode(b);
    }
  }

  // ---------------------------------------------------------------- nodes of a device path

  /** The length field, at offset 2 of a node. */
  function LengthField(b: seq<byte>): uint16
    requires |b| >= 4
  {
    Pair(b[2], b[3])
  }

  /** A GUID is stored with its first three fields byte-swapped. */
  predicate GuidIn(b: seq<byte>, uuid: Bytes16)
    requires |b| == 16
  {
    && [uuid[3], uuid[2], uuid[1], uuid[0]] == b[..4]
    && [uuid[5], uuid[4]] == b[4..6]
    && [uuid[7], uuid[6]] == b[6..8]
    && uuid[8..] == b[8..]
  }

  /** The part of a hard drive node before the partition signature. */
  predicate DriveHeader(b: seq<byte>, number: uint32, startBlock: uint64, sizeBlocks: uint64) {
    && |b| == 42 && b[0] == 4 && b[1] == 1
    && Number4(b[4..8]) == number && Number8(b[8..16]) == startBlock && Number8(b[16..24]) == sizeBlocks
  }

  /** A file path node for a text of so many units. */
  predicate PathNode(b: seq<byte>, length: nat) {
    && |b| == 6 + 2 * length && b[0] == 4 && b[1] == 4
    && b[|b| - 2] == 0 && b[|b| - 1] == 0
  }

  function UnitAt(b: seq<byte>, i: nat): uint16
    requires 5 + 2 * i < |b|
  {
    Pair(b[4 + 2 * i], b[5 + 2 * i])
  }

  predicate WrittenNode(b: seq<byte>, e: Elem) {
    4 <= |b| == LengthField(b) &&
    match e
    case HardDrive(number, startBlock, sizeBlocks, partition) =>
      && DriveHeader(b, number, startBlock, sizeBlocks)
      && (match partition
          case None => false
          case Some(Mbr(sig)) =>
            b[24..28] == sig && (forall i :: 28 <= i < 40 ==> b[i] == 0) && b[40] == 1 && b[41] == 1
          case Some(Gpt(uuid)) => GuidIn(b[24..40], uuid) && b[40] == 2 && b[41] == 2
          case Some(UnknownPartition(sig, format, st)) => b[24..40] == sig && b[40] == format && b[41] == st)
    case FilePath(path) =>
      && PathNode(b, |path|)
      && forall i :: 0 <= i < |path| ==> path[i] != 0 && UnitAt(b, i) == if path[i] == 0x2F then 0x5C else path[i]
    case UnknownPath(t, subT, data) =>
      b[0] == t && b[1] == subT && b[4..] == data
  }

  predicate ReadNode(b: seq<byte>, e: Elem) {
    4 <= |b| == LengthField(b) &&
    match e
    case HardDrive(number, startBlock, sizeBlocks, partition) =>
      && DriveHeader(b, number, startBlock, sizeBlocks)
      && (match partition
          case None => false
          case Some(Mbr(sig)) => b[40] == 1 && b[41] == 1 && b[24..28] == sig
          case Some(Gpt(uuid)) => b[40] == 2 && b[41] == 2 && GuidIn(b[24..40], uuid)
          case Some(UnknownPartition(sig, format, st)) =>
            b[40..] != [1, 1] && b[40..] != [2, 2] && b[24..40] == sig && b[40] == format && b[41] == st)
    case FilePath(path) =>
      && PathNode(b, |path|)
      && forall i :: 0 <= i < |path| ==>
           UnitAt(b, i) != 0 && path[i] == if UnitAt(b, i) == 0x5C then 0x2F else UnitAt(b, i)
    case UnknownPath(t, subT, data) =>
      b[..2] != [4, 1] && b[..2] != [4, 4] && b[0] == t && b[1] == subT && b[4..] == data
  }

  /** Nodes one after another, each as long as its length field says, then the end marker. */
  predicate WrittenPath(b: seq<byte>, d: DevicePath)
    decreases |d|
  {
    if d == [] then b == [0x7F, 0xFF, 4, 0]
    else 4 <= |b| && LengthField(b) <= |b| && WrittenNode(b[..LengthField(b)], d[0]) && WrittenPath(b[LengthField(b)..], d[1..])
  }

  /** The same for reading: an end marker of any length, then `tail`. */
  predicate ReadPath(b: seq<byte>, d: DevicePath, tail: seq<byte>)
    decreases |d|
  {
    && 4 <= |b| && 4 <= LengthField(b) <= |b|
    && if b[0] == 0x7F && b[1] == 0xFF then d == [] && tail == b[LengthField(b)..]
       else d != [] && ReadNode(b[..LengthField(b)], d[0]) && ReadPath(b[LengthField(b)..], d[1..], tail)
  }

  lemma TransposedPieces(u: Bytes16)
    ensures var t := Transpose(u);
      && t[..4] == [u[3], u[2], u[1], u[0]] && t[4..6] == [u[5], u[4]] && t[6..8] == [u[7], u[6]] && t[8..] == u[8..]
  {
    hide GuidIn;
    var t := Transpose(u);
    assert forall i :: 0 <= i < 16 ==> t[i] == u[MIXED_ENDIAN[i]];
    hide Transpose;
  }

  lemma SamePieces(t: Bytes16, b: Bytes16)
    requires t[..4] == b[..4] && t[4..6] == b[4..6] && t[6..8] == b[6..8] && t[8..] == b[8..]
    ensures t == b
  {
    assert b == b[..4] + b[4..6] + b[6..8] + b[8..];
    assert t == t[..4] + t[4..6] + t[6..8] + t[8..];
  }

  lemma GuidOnWire(b: Bytes16, uuid: Bytes16)
    ensures Transpose(uuid) == b <==> GuidIn(b, uuid)
    ensures Transpose(b) == uuid <==> GuidIn(b, uuid)
  {
    hide Transpose;
    TransposeInvolution(uuid);
    TransposeInvolution(b);
    TransposedPieces(uuid);
    if GuidIn(b, uuid) {
      SamePieces(Transpose(uuid), b);
    }
  }

  lemma DriveOnWire(b: seq<byte>, number: uint32, startBlock: uint64, sizeBlocks: uint64, p: PartitionMatch)
    requires |b| == 38
    ensures b == HardDriveBytes(number, startBlock, sizeBlocks, p) <==>
      && Number4(b[..4]) == number && Number8(b[4..12]) == startBlock && Number8(b[12..20]) == sizeBlocks
      && b[20..36] == Signature(p) && b[36] == Format(p) && b[37] == SignatureType(p)
  {
    hide LE, PutLE, Number4, Number8, Signature, Format, SignatureType;
    Put4(b[..4], number);
    Put8(b[4..12], startBlock);
    Put8(b[12..20], sizeBlocks);
    var h := HardDriveBytes(number, startBlock, sizeBlocks, p);
    assert h[..4] == PutLE(number, 4) && h[4..12] == PutLE(startBlock, 8) && h[12..20] == PutLE(sizeBlocks, 8);
    assert h[20..36] == Signature(p) && h[36..] == [Format(p), SignatureType(p)];
    assert b == b[..4] + b[4..12] + b[12..20] + b[20..36] + [b[36], b[37]];
    assert h == h[..4] + h[4..12] + h[12..20] + h[20..36] + [h[36], h[37]];
  }

  lemma SignatureOnWire(b: seq<byte>, p: PartitionMatch)
    requires |b| == 16
    ensures b == Signature(p) <==>
      match p
      case Mbr(sig) => b[..4] == sig && forall i :: 4 <= i < 16 ==> b[i] == 0
      case Gpt(uuid) => GuidIn(b, uuid)
      case UnknownPartition(sig, _, _) => b == sig
  {
    match p
    case Mbr(sig) =>
      assert b == b[..4] + b[4..];
      assert b[4..] == ZEROS12 <==> forall i :: 4 <= i < 16 ==> b[i] == 0 by {
        if forall i :: 4 <= i < 16 ==> b[i] == 0 {
          assert forall i :: 0 <= i < 12 ==> b[4..][i] == b[4 + i] == 0;
        } else {
          var i :| 4 <= i < 16 && b[i] != 0;
          assert b[4..][i - 4] != 0;
        }
      }
      assert (sig + ZEROS12)[..4] == sig && (sig + ZEROS12)[4..] == ZEROS12;
    case Gpt(uuid) => GuidOnWire(b, uuid);
    case UnknownPartition(sig, _, _) =>
  }

  lemma ClassifyOnWire(b: Bytes16, format: byte, st: byte, p: PartitionMatch)
    ensures Classify(b, format, st) == p <==>
      match p
      case Mbr(sig) => format == 1 && st == 1 && b[..4] == sig
      case Gpt(uuid) => format == 2 && st == 2 && GuidIn(b, uuid)
      case UnknownPartition(sig, f, t) =>
        !(format == 1 && st == 1) && !(format == 2 && st == 2) && sig == b && f == format && t == st
  {
    if p.Gpt? {
      GuidOnWire(b, p.uuid);
    }
    hide Transpose, GuidIn;
  }

  /** The header of a node and the rest of it. */
  lemma NodeParts(b: seq<byte>, e: Elem, payload: seq<byte>)
    requires |payload| + 4 <= 0xFFFF
    ensures b == Node(e, payload) <==>
      4 <= |b| == LengthField(b) && b[0] == Typ(e) && b[1] == SubType(e) && b[4..] == payload
  {
    var n := Node(e, payload);
    assert n[0] == Typ(e) && n[1] == SubType(e) && n[4..] == payload;
    assert n[2] == (|payload| + 4) % 0x100 && n[3] == (|payload| + 4) / 0x100;
    if 4 <= |b| == LengthField(b) && b[0] == Typ(e) && b[1] == SubType(e) && b[4..] == payload {
      assert b == [b[0], b[1], b[2], b[3]] + b[4..];
      assert n == [n[0], n[1], n[2], n[3]] + n[4..];
    }
  }

  lemma FilePathOnWire(b: seq<byte>, path: seq<uint16>)
    requires 4 <= |b|
    ensures b[4..] == Encode(Replace(path, SLASH, BACKSLASH)) + [0, 0] <==>
      && |b| == 6 + 2 * |path| && b[|b| - 2] == 0 && b[|b| - 1] == 0
      && forall i :: 0 <= i < |path| ==> UnitAt(b, i) == if path[i] == 0x2F then 0x5C else path[i]
  {
    if |b| == 6 + 2 * |path| {
      var text := Replace(path, SLASH, BACKSLASH);
      var core := b[4..|b| - 2];
      UnitsOnWire(core, text);
      assert b[4..] == core + [b[|b| - 2], b[|b| - 1]];
      assert b[4..] == Encode(text) + [0, 0] <==> core == Encode(text) && b[|b| - 2] == 0 && b[|b| - 1] == 0 by {
        assert (Encode(text) + [0, 0])[..2 * |path|] == Encode(text);
        assert b[4..][..2 * |path|] == core;
        assert b[4..][2 * |path|] == b[|b| - 2] && b[4..][2 * |path| + 1] == b[|b| - 1];
      }
      hide Encode;
      assert forall i :: 0 <= i < |path| ==> UnitAt(b, i) == Pair(core[2 * i], core[2 * i + 1]);
    }
  }

  lemma UnitsOfNode(b: seq<byte>)
    requires 4 <= |b| && |b| % 2 == 0
    ensures 2 * |Decode(b[4..])| + 4 == |b|
    ensures forall i :: 0 <= i < |Decode(b[4..])| ==> Decode(b[4..])[i] == UnitAt(b, i)
  {
    UnitsOnWire(b[4..], Decode(b[4..]));
  }

  lemma ReplaceMeaning(text: seq<uint16>, path: seq<uint16>, from: uint16, to: uint16)
    ensures Replace(text, from, to) == path <==>
      |path| == |text| && forall i :: 0 <= i < |path| ==> path[i] == if text[i] == from then to else text[i]
  {
  }

  lemma UnterminatedText(data: seq<byte>)
    requires |data| % 2 == 1 || |data| < 2
    ensures ParseFilePath(data).Err?
  {
    hide Decode, Replace;
    DecodeOdd(data);
  }

  lemma ParsedText(data: seq<byte>)
    requires |data| >= 2
    ensures var units := Decode(data);
      var text := units[..|units| - 1];
      ParseFilePath(data) ==
        if units[|units| - 1] != 0 || 0 in text then Err(BadFilePath) else Ok(FilePath(Replace(text, BACKSLASH, SLASH)))
  {
    hide Decode, Replace;
  }

  lemma ParseFilePathOnWire(b: seq<byte>, path: seq<uint16>)
    requires 4 <= |b|
    ensures ParseFilePath(b[4..]) == Ok(FilePath(path)) <==>
      && |b| == 6 + 2 * |path| && b[|b| - 2] == 0 && b[|b| - 1] == 0
      && forall i :: 0 <= i < |path| ==>
           UnitAt(b, i) != 0 && path[i] == if UnitAt(b, i) == 0x5C then 0x2F else UnitAt(b, i)
  {
    hide ParseFilePath, Replace, Decode;
    if |b| % 2 == 1 || |b| < 6 {
      UnterminatedText(b[4..]);
    } else {
      UnitsOfNode(b);
      var units := Decode(b[4..]);
      var text := units[..|units| - 1];
      ParsedText(b[4..]);
      ReplaceMeaning(text, path, BACKSLASH, SLASH);
      assert 0 in text <==> exists i :: 0 <= i < |text| && text[i] == 0;
    }
  }

  lemma NodeWritten(b: seq<byte>, e: Elem)
    ensures Fits(e) && b == Node(e, ElemData(e).value) <==> WrittenNode(b, e)
  {
    hide Node, Encode, HardDriveBytes, Signature, Replace, PutLE, GuidIn, Number4, Number8;
    if ElemData(e).Ok? && |ElemData(e).value| + 4 <= 0xFFFF {
      NodeParts(b, e, ElemData(e).value);
    }
    if |b| >= 4 {
      match e
      case HardDrive(number, startBlock, sizeBlocks, Some(partition)) =>
        if |b| == 42 {
          DriveOnWire(b[4..], number, startBlock, sizeBlocks, partition);
          DriveSlices(b);
          SignatureOnWire(b[24..40], partition);
        }
      case FilePath(path) => FilePathOnWire(b, path);
      case _ =>
    }
  }

  lemma DriveSlices(b: seq<byte>)
    requires |b| == 42
    ensures b[4..][..4] == b[4..8] && b[4..][4..12] == b[8..16] && b[4..][12..20] == b[16..24]
    ensures b[4..][20..36] == b[24..40] && b[4..][36] == b[40] && b[4..][37] == b[41]
    ensures b[24..40][..4] == b[24..28]
    ensures (forall i :: 4 <= i < 16 ==> b[24..40][i] == 0) <==> (forall i :: 28 <= i < 40 ==> b[i] == 0)
  {
    if forall i :: 4 <= i < 16 ==> b[24..40][i] == 0 {
      forall i | 28 <= i < 40
        ensures b[i] == 0
      {
        assert b[i] == b[24..40][i - 24];
      }
    }
  }

  lemma NodeRead(b: seq<byte>, e: Elem)
    requires 4 <= |b| == LengthField(b)
    ensures ParseElem(b[0], b[1], b[4..]) == Ok(e) <==> ReadNode(b, e)
  {
    hide ParseFilePath, Classify, GuidIn, Number4, Number8, LE;
    if b[0] == 4 && b[1] == 1 {
      if |b| == 42 {
        DriveSlices(b);
        LEIsNumber4(b[4..8]);
        LEIsNumber8(b[8..16]);
        LEIsNumber8(b[16..24]);
        match e
        case HardDrive(_, _, _, Some(p)) => ClassifyOnWire(b[24..40], b[40], b[41], p);
        case _ =>
      }
    } else if b[0] == 4 && b[1] == 4 {
      assert b[..2] == [4, 4];
      ParsedFilePathKind(b[4..]);
      if e.FilePath? {
        ParseFilePathOnWire(b, e.path);
      }
    }
  }

  lemma ParsedFilePathKind(data: seq<byte>)
    ensures ParseFilePath(data).Ok? ==> ParseFilePath(data).value.FilePath?
  {
  }

  /** The printer writes `b` for `d` exactly when `b` is the layout of `d`. */
  lemma {:induction false} PathWritten(d: DevicePath, b: seq<byte>)
    ensures PathBytes(d) == Ok(b) <==> WrittenPath(b, d)
    decreases |d|
  {
    hide Node, WrittenNode, ElemData;
    if d != [] {
      var e := d[0];
      if PathBytes(d) == Ok(b) {
        BytesCons(d, []);
        var node, rest := Node(e, ElemData(e).value), PathBytes(d[1..]).value;
        assert b == node + rest;
        NodeWritten(node, e);
        NodeLength(node, e);
        assert LengthField(b) == LengthField(node) && b[..LengthField(b)] == node && b[LengthField(b)..] == rest;
        PathWritten(d[1..], rest);
      }
      if WrittenPath(b, d) {
        var n := LengthField(b);
        NodeWritten(b[..n], e);
        PathWritten(d[1..], b[n..]);
        assert b == b[..n] + b[n..];
      }
    }
  }

  lemma NodeLength(b: seq<byte>, e: Elem)
    requires WrittenNode(b, e)
    ensures 4 <= |b| == LengthField(b)
  {
  }

  lemma {:induction false} ParseKeeps(b: seq<byte>, p: DevicePath)
    ensures ParseFrom(b, p).Ok? ==> p <= ParseFrom(b, p).value.0
    decreases |b|
  {
    hide ParseElem, LE;
    if |b| >= 4 && 4 <= U16(b[2..4]) <= |b| && !(b[0] == 0x7F && b[1] == 0xFF) {
      var length := U16(b[2..4]);
      var elem := ParseElem(b[0], b[1], b[4..length]);
      if elem.Ok? {
        ParseKeeps(b[length..], p + [elem.value]);
      }
    }
  }

  /** The parser reads `d` and leaves `tail` exactly when `b` is a layout of `d`, then `tail`. */
  lemma {:induction false} PathRead(b: seq<byte>, p: DevicePath, d: DevicePath, tail: seq<byte>)
    ensures ParseFrom(b, p) == Ok((p + d, tail)) <==> ReadPath(b, d, tail)
    decreases |b|
  {
    hide ParseElem, ReadNode;
    if |b| >= 4 && 4 <= U16(b[2..4]) <= |b| {
      var n := U16(b[2..4]);
      if b[0] == 0x7F && b[1] == 0xFF {
        assert p == p + d <==> d == [];
      } else {
        var elem := ParseElem(b[0], b[1], b[4..n]);
        assert b[..n][4..] == b[4..n];
        if d != [] {
          NodeRead(b[..n], d[0]);
          PathRead(b[n..], p + [d[0]], d[1..], tail);
          assert p + d == (p + [d[0]]) + d[1..];
        }
        if elem.Ok? {
          ParseKeeps(b[n..], p + [elem.value]);
          NextIs(p, elem.value, d, ParseFrom(b[n..], p + [elem.value]));
        }
      }
    }
  }

  lemma NextIs(p: DevicePath, e: Elem, d: DevicePath, r: Result<(DevicePath, seq<byte>), Error>)
    requires r.Ok? ==> p + [e] <= r.value.0
    ensures r.Ok? && r.value.0 == p + d ==> d != [] && d[0] == e
  {
    if r.Ok? && r.value.0 == p + d {
      assert (p + d)[|p|] == (p + [e])[|p|];
    }
  }

  // ---------------------------------------------------------------- refusals

  /** The elements the printer accepts. */
  predicate Writable(e: Elem) {
    match e
    case HardDrive(_, _, _, partition) => partition != None
    case FilePath(path) => 0 !in path && 6 + 2 * |path| <= 0xFFFF
    case UnknownPath(_, _, data) => 4 + |data| <= 0xFFFF
  }

  /** A path of writable elements is printed; otherwise its first other element decides the error. */
  lemma {:induction false} PathRefused(d: DevicePath, k: nat)
    requires k <= |d| && forall i :: 0 <= i < k ==> Writable(d[i])
    ensures k == |d| ==> PathBytes(d).Ok?
    ensures k < |d| && !Writable(d[k]) ==> PathBytes(d) == Err(
      if d[k].HardDrive? then NoPartitionMatch
      else if d[k].FilePath? && 0 in d[k].path then NullInPath
      else PayloadTooLarge)
  {
    hide Node, HardDriveBytes;
    if k > 0 {
      PathRefused(d[1..], k - 1);
    }
  }

  /** `b` starts with the nodes of `d`; `rest` follows. */
  predicate NodesThen(b: seq<byte>, d: DevicePath, rest: seq<byte>)
    decreases |d|
  {
    if d == [] then b == rest
    else
      && 4 <= |b| && 4 <= LengthField(b) <= |b| && b[..2] != [0x7F, 0xFF]
      && ReadNode(b[..LengthField(b)], d[0]) && NodesThen(b[LengthField(b)..], d[1..], rest)
  }

  /** What stops the parser after the nodes of `d`. */
  lemma {:induction false} ReadErrors(b: seq<byte>, p: DevicePath, d: DevicePath, rest: seq<byte>)
    requires NodesThen(b, d, rest)
    ensures var r := ParseFrom(b, p);
      && (rest == [] ==> r == Err(MissingEnd(|p| + |d|)))
      && (0 < |rest| < 4 ==> r == Err(DanglingBytes))
      && (|rest| >= 4 ==>
          var n := LengthField(rest);
          && (n > |rest| ==> r == Err(ElementOverrun))
          && (n < 4 ==> r == Err(ElementTooShort))
          && (4 <= n <= |rest| && rest[..2] == [4, 1] && n != 42 ==> r == Err(BadHardDrive))
          && (4 <= n <= |rest| && rest[..2] == [4, 4] && (forall path :: !ReadNode(rest[..n], FilePath(path)))
              ==> r == Err(BadFilePath)))
    decreases |d|
  {
    hide ReadNode, ParseElem, ParseFrom;
    if d == [] {
      if |rest| >= 4 && 4 <= LengthField(rest) <= |rest| {
        BrokenNode(rest[..LengthField(rest)]);
        assert rest[..LengthField(rest)][4..] == rest[4..LengthField(rest)];
        assert rest[..2] == [rest[0], rest[1]];
      }
      ParseFromStep(rest, p);
    } else {
      var n := LengthField(b);
      NodeRead(b[..n], d[0]);
      assert b[..n][4..] == b[4..n] && b[..2] == [b[0], b[1]];
      ParseFromStep(b, p);
      ReadErrors(b[n..], p + [d[0]], d[1..], rest);
    }
  }

  lemma ParseFromStep(b: seq<byte>, p: DevicePath)
    ensures var r := ParseFrom(b, p);
      && (b == [] ==> r == Err(MissingEnd(|p|)))
      && (0 < |b| < 4 ==> r == Err(DanglingBytes))
      && (|b| >= 4 && LengthField(b) > |b| ==> r == Err(ElementOverrun))
      && (|b| >= 4 && LengthField(b) < 4 ==> r == Err(ElementTooShort))
      && (|b| >= 4 && 4 <= LengthField(b) <= |b| && !(b[0] == 0x7F && b[1] == 0xFF) ==>
          var elem := ParseElem(b[0], b[1], b[4..LengthField(b)]);
          r == if elem.Err? then Err(elem.error) else ParseFrom(b[LengthField(b)..], p + [elem.value]))
  {
    hide ParseElem;
  }

  lemma BrokenNode(b: seq<byte>)
    requires 4 <= |b| == LengthField(b)
    ensures b[0] == 4 && b[1] == 1 && |b| != 42 ==> ParseElem(b[0], b[1], b[4..]) == Err(BadHardDrive)
    ensures b[0] == 4 && b[1] == 4 && (forall path :: !ReadNode(b, FilePath(path)))
      ==> ParseElem(b[0], b[1], b[4..]) == Err(BadFilePath)
  {
    if b[0] == 4 && b[1] == 4 {
      var r := ParseFilePath(b[4..]);
      ParsedFilePathKind(b[4..]);
      if r.Ok? {
        NodeRead(b, FilePath(r.value.path));
      }
      hide LengthField, ReadNode;
    }
  }

  // ---------------------------------------------------------------- load options

  /** Device paths one after another. */
  ghost predicate WrittenPaths(b: seq<byte>, ds: seq<DevicePath>)
    decreases |ds|
  {
    if ds == [] then b == []
    else exists k :: 0 <= k <= |b| && WrittenPath(b[..k], ds[0]) && WrittenPaths(b[k..], ds[1..])
  }

  ghost predicate ReadPaths(b: seq<byte>, ds: seq<DevicePath>)
    decreases |ds|
  {
    if ds == [] then b == []
    else exists k :: 0 <= k <= |b| && ReadPath(b, ds[0], b[k..]) && ReadPaths(b[k..], ds[1..])
  }

  /** Attributes, path length, text, terminator, paths, optional data. */
  ghost predicate WrittenOption(b: seq<byte>, e: LoadOption) {
    var n := 2 * |e.description|;
    && |b| >= 8 + n
    && b[0] == (if e.inactive then 0 else 1) + (if e.hidden then 8 else 0)
    && b[1] == e.category % 0x20 && b[2] == 0 && b[3] == 0
    && UnitsIn(b[6..6 + n], e.description) && 0 !in e.description
    && b[6 + n] == 0 && b[7 + n] == 0
    && var paths := Pair(b[4], b[5]);
    && 8 + n + paths <= |b|
    && WrittenPaths(b[8 + n..8 + n + paths], [e.filePath] + e.extraPaths)
    && b[8 + n + paths..] == e.optionalData
  }

  /** `z` is the first of two zero bytes that stand together at or after offset 6. */
  predicate FirstZeroPair(b: seq<byte>, z: int) {
    && 6 <= z < |b| - 1 && b[z] == 0 && b[z + 1] == 0
    && forall k :: 6 <= k < z ==> !(b[k] == 0 && b[k + 1] == 0)
  }

  /** The text read from offset 6 up to and with `z`: a byte left over becomes U+FFFD. */
  predicate TextUpTo(b: seq<byte>, z: nat, units: seq<uint16>)
    requires 6 <= z < |b| - 1
  {
    && |units| == (z - 4) / 2
    && (forall i :: 0 <= i < |units| && 7 + 2 * i <= z ==> units[i] == Pair(b[6 + 2 * i], b[7 + 2 * i]))
    && (z % 2 == 0 ==> units[|units| - 1] == 0xFFFD)
  }

  /** The fields of the attribute word; its other bits are not looked at. */
  predicate AttributesRead(b: seq<byte>, e: LoadOption)
    requires |b| >= 2
  {
    && (e.inactive <==> b[0] % 2 == 0)
    && (e.hidden <==> b[0] / 8 % 2 == 1)
    && e.category == b[1] % 0x20
  }

  /** The paths start three bytes after the first zero pair and are as long as bytes 4 and 5 say. */
  ghost predicate ReadOption(b: seq<byte>, e: LoadOption, z: nat) {
    && FirstZeroPair(b, z)
    && AttributesRead(b, e)
    && TextUpTo(b, z, e.description)
    && var paths := Pair(b[4], b[5]);
    && z + 3 + paths <= |b|
    && ReadPaths(b[z + 3..z + 3 + paths], [e.filePath] + e.extraPaths)
    && e.optionalData == b[z + 3 + paths..]
  }

  lemma {:induction false} PathsWritten(ds: seq<DevicePath>, b: seq<byte>)
    ensures ExtraBytes(ds) == Ok(b) <==> WrittenPaths(b, ds)
    decreases |ds|
  {
    hide PathBytes, WrittenPath;
    if ds != [] {
      if ExtraBytes(ds) == Ok(b) {
        var first, rest := PathBytes(ds[0]).value, ExtraBytes(ds[1..]).value;
        assert b == first + rest;
        PathWritten(ds[0], first);
        PathsWritten(ds[1..], rest);
        assert b[..|first|] == first && b[|first|..] == rest;
      }
      if WrittenPaths(b, ds) {
        var k :| 0 <= k <= |b| && WrittenPath(b[..k], ds[0]) && WrittenPaths(b[k..], ds[1..]);
        PathWritten(ds[0], b[..k]);
        PathsWritten(ds[1..], b[k..]);
        assert b == b[..k] + b[k..];
      }
    }
  }

  lemma AllWritten(e: LoadOption, b: seq<byte>)
    ensures AllPathBytes(e) == Ok(b) <==> WrittenPaths(b, [e.filePath] + e.extraPaths)
  {
    hide PathBytes, WrittenPaths;
    var all := [e.filePath] + e.extraPaths;
    PathsWritten(all, b);
    assert all[0] == e.filePath && all[1..] == e.extraPaths;
  }

  lemma SameDigits(x0: byte, x1: byte, x2: byte, x3: byte, low: byte, high: byte)
    ensures Pair(x0, x1) + 0x1_0000 * Pair(x2, x3) == high * 0x100 + low <==> x0 == low && x1 == high && x2 == 0 && x3 == 0
  {
  }

  lemma AttributeBytes(e: LoadOption, b: seq<byte>)
    requires |b| == 4
    ensures PutLE(Attributes(e), 4) == b <==>
      && b[0] == (if e.inactive then 0 else 1) + (if e.hidden then 8 else 0)
      && b[1] == e.category % 0x20 && b[2] == 0 && b[3] == 0
  {
    hide PutLE, Pair;
    Put4(b, Attributes(e));
    SameDigits(b[0], b[1], b[2], b[3], (if e.inactive then 0 else 1) + (if e.hidden then 8 else 0), e.category % 0x20);
  }

  /** Dropping whole multiples of `m`. */
  lemma DropMultiple(x: int, q: int, m: int)
    requires m == 2 || m == 8 || m == 0x20 || m == 0x100
    ensures (x + m * q) % m == x % m && (x + m * q) / m == x / m + q
  {
    if {
      case m == 2 => assert (x + 2 * q) / 2 == x / 2 + q;
      case m == 8 => assert (x + 8 * q) / 8 == x / 8 + q;
      case m == 0x20 => assert (x + 0x20 * q) / 0x20 == x / 0x20 + q;
      case m == 0x100 => assert (x + 0x100 * q) / 0x100 == x / 0x100 + q;
    }
  }

  lemma AttributeBits(b: seq<byte>)
    requires |b| == 4
    ensures var a := LE(b);
      a % 2 == b[0] % 2 && a / 8 % 2 == b[0] / 8 % 2 && a / 0x100 % 0x20 == b[1] % 0x20
  {
    LEIsNumber4(b);
    BitsOf(b[0], b[1], Pair(b[2], b[3]));
    hide LE;
  }

  lemma BitsOf(low: byte, middle: byte, high: nat)
    ensures var a := Pair(low, middle) + 0x1_0000 * high;
      a % 2 == low % 2 && a / 8 % 2 == low / 8 % 2 && a / 0x100 % 0x20 == middle % 0x20
  {
    var w: int := middle + 0x100 * high;
    var a := low + 0x100 * w;
    DropMultiple(low, 0x80 * w, 2);
    DropMultiple(low, 0x20 * w, 8);
    DropMultiple(low / 8, 0x10 * w, 2);
    DropMultiple(low, w, 0x100);
    DropMultiple(middle, 8 * high, 0x20);
  }

  lemma PathField(b: seq<byte>, n: nat)
    requires |b| == 2 && n <= 0xFFFF
    ensures PutU16(n) == b <==> Pair(b[0], b[1]) == n
  {
  }

  lemma OptionCut(b: seq<byte>, n: nat, p: nat, e: LoadOption)
    requires 8 + n + p <= |b|
    ensures b == b[..4] + b[4..6] + b[6..6 + n] + b[6 + n..8 + n] + b[8 + n..8 + n + p] + b[8 + n + p..]
  {
  }

  lemma PrintedHasLayout(e: LoadOption, b: seq<byte>)
    requires OptionBytes(e) == Ok(b)
    ensures WrittenOption(b, e)
  {
    hide AllPathBytes, PutLE, Encode, Attributes, PutU16, WrittenPaths, UnitsIn, Pair, Terminated;
    OptionLayout(e);
    var n, paths := 2 * |e.description|, AllPathBytes(e).value;
    AfterText(e.description, paths + e.optionalData, b[6..]);
    AllWritten(e, paths);
    AttributeBytes(e, b[..4]);
    PathField(b[4..6], |paths|);
    UnitsOnWire(b[6..6 + n], e.description);
  }

  lemma AfterText(units: seq<uint16>, tail: seq<byte>, b: seq<byte>)
    requires b == Terminated(units, tail)
    ensures b[2 * |units|] == 0 && b[2 * |units| + 1] == 0
  {
  }

  lemma LayoutIsPrinted(e: LoadOption, b: seq<byte>)
    requires WrittenOption(b, e)
    ensures OptionBytes(e) == Ok(b)
  {
    hide AllPathBytes, PutLE, Encode, Attributes, PutU16, WrittenPaths, UnitsIn;
    var n, p := 2 * |e.description|, Pair(b[4], b[5]);
    assert 0 <= p <= 0xFFFF;
    hide Pair;
    AllWritten(e, b[8 + n..8 + n + p]);
    AttributeBytes(e, b[..4]);
    PathField(b[4..6], p);
    UnitsOnWire(b[6..6 + n], e.description);
    assert b[6 + n..8 + n] == NULL;
    OptionCut(b, n, p, e);
  }

  /** The printer writes `b` for `e` exactly when `b` is the layout of `e`. */
  lemma OptionWritten(e: LoadOption, b: seq<byte>)
    ensures OptionBytes(e) == Ok(b) <==> WrittenOption(b, e)
  {
    hide *;
    if OptionBytes(e) == Ok(b) {
      PrintedHasLayout(e, b);
    }
    if WrittenOption(b, e) {
      LayoutIsPrinted(e, b);
    }
  }

  lemma {:induction false} TailIsSuffix(b: seq<byte>, d: DevicePath, tail: seq<byte>)
    requires ReadPath(b, d, tail)
    ensures |tail| < |b| && tail == b[|b| - |tail|..]
    decreases |d|
  {
    hide ReadNode;
    var n := LengthField(b);
    if d != [] {
      TailIsSuffix(b[n..], d[1..], tail);
    }
  }

  lemma FirstPath(b: seq<byte>, ds: seq<DevicePath>)
    requires b != []
    ensures var r := ParseFrom(b, []);
      ReadPaths(b, ds) <==> r.Ok? && ds != [] && ds[0] == r.value.0 && ReadPaths(r.value.1, ds[1..])
  {
    hide ParseFrom, ReadPath;
    var r := ParseFrom(b, []);
    if ReadPaths(b, ds) {
      var k :| 0 <= k <= |b| && ReadPath(b, ds[0], b[k..]) && ReadPaths(b[k..], ds[1..]);
      PathRead(b, [], ds[0], b[k..]);
      assert [] + ds[0] == ds[0];
    }
    if r.Ok? && ds != [] && ds[0] == r.value.0 && ReadPaths(r.value.1, ds[1..]) {
      var tail := r.value.1;
      PathRead(b, [], ds[0], tail);
      assert [] + ds[0] == ds[0];
      TailIsSuffix(b, ds[0], tail);
      assert b[|b| - |tail|..] == tail;
    }
  }

  lemma {:induction false} ExtrasKeep(b: seq<byte>, acc: seq<DevicePath>)
    ensures ParseExtras(b, acc).Ok? ==> acc <= ParseExtras(b, acc).value
    decreases |b|
  {
    hide ParseFrom;
    if b != [] {
      var r := ParseFrom(b, []);
      if r.Ok? {
        ParseShrinks(b);
        ExtrasKeep(r.value.1, acc + [r.value.0]);
      }
    }
  }

  lemma {:induction false} PathsRead(b: seq<byte>, acc: seq<DevicePath>, ds: seq<DevicePath>)
    ensures ParseExtras(b, acc) == Ok(acc + ds) <==> ReadPaths(b, ds)
    decreases |b|
  {
    hide ParseFrom, ReadPaths;
    if b == [] {
      assert acc + ds == acc <==> ds == [];
      NoPathInNothing(ds);
    } else {
      FirstPath(b, ds);
      var r := ParseFrom(b, []);
      if r.Ok? {
        var (d, tail) := r.value;
        ParseShrinks(b);
        ExtrasKeep(tail, acc + [d]);
        if ds == [] {
          assert acc + ds == acc;
        } else {
          PathsRead(tail, acc + [d], ds[1..]);
          assert (acc + ds)[|acc|] == ds[0] && (acc + [d])[|acc|] == d;
          assert ds[0] == d ==> acc + ds == (acc + [d]) + ds[1..];
        }
      }
    }
  }

  lemma NoPathInNothing(ds: seq<DevicePath>)
    ensures ReadPaths([], ds) <==> ds == []
  {
    hide ReadPath;
    forall d, k | 0 <= k <= 0
      ensures !ReadPath([], d, [][k..])
    {
      NotEmpty(d, [][k..]);
    }
  }

  lemma NotEmpty(d: DevicePath, tail: seq<byte>)
    ensures !ReadPath([], d, tail)
  {
  }

  lemma AllPathsRead(b: seq<byte>, d: DevicePath, ds: seq<DevicePath>)
    ensures ParsePaths(b) == Ok((d, ds)) <==> ReadPaths(b, [d] + ds)
  {
    hide ParseFrom, ReadPaths, ParseExtras;
    var all := [d] + ds;
    assert all[0] == d && all[1..] == ds;
    if b == [] {
      NoPathInNothing(all);
      NothingParsed();
    } else {
      FirstPath(b, all);
      var r := ParseFrom(b, []);
      if r.Ok? {
        PathsRead(r.value.1, [], ds);
        assert [] + ds == ds;
      }
    }
  }

  lemma NothingParsed()
    ensures ParseFrom([], []).Err?
  {
  }

  lemma TextRead(b: seq<byte>, z: nat, units: seq<uint16>)
    requires 6 <= z < |b| - 1
    ensures Decode(b[6..z + 1]) == units <==> TextUpTo(b, z, units)
  {
    var raw := b[6..z + 1];
    assert |Decode(raw)| == (z - 4) / 2;
    if |units| == (z - 4) / 2 {
      forall i | 0 <= i < |units|
        ensures Decode(raw)[i] == if 7 + 2 * i <= z then Pair(b[6 + 2 * i], b[7 + 2 * i]) else 0xFFFD
      {
      }
      assert z % 2 == 0 ==> 7 + 2 * (|units| - 1) > z;
      hide Decode;
    }
  }

  lemma FirstPairFound(b: seq<byte>, z: nat)
    requires |b| >= 6 && z >= 6
    ensures FindZeroPair(b[6..], 0) == Some((z - 6) as nat) <==> FirstZeroPair(b, z)
  {
    hide FindZeroPair;
    var r := FindZeroPair(b[6..], 0);
    forall j: nat
      ensures ZeroPairAt(b[6..], j) <==> j + 7 < |b| && b[j + 6] == 0 && b[j + 7] == 0
    {
    }
    if FirstZeroPair(b, z) {
      assert ZeroPairAt(b[6..], z - 6);
    }
    if r == Some((z - 6) as nat) {
      forall k | 6 <= k < z
        ensures !(b[k] == 0 && b[k + 1] == 0)
      {
        assert !ZeroPairAt(b[6..], k - 6);
      }
    }
  }

  /** The parser reads `e` exactly from the layouts of `e`. */
  lemma OptionRead(b: seq<byte>, e: LoadOption)
    ensures ParseOption(b) == Ok(e) <==> exists z :: ReadOption(b, e, z)
  {
    hide ReadOption, ParsePaths, LE, Decode, FindZeroPair;
    if ParseOption(b) == Ok(e) {
      var z := FindZeroPair(b[6..], 0).value + 6;
      ReadAt(b, e, z);
    }
    if z :| ReadOption(b, e, z) {
      PairIsPlaced(b, e, z);
      ReadAt(b, e, z);
    }
  }

  lemma PairIsPlaced(b: seq<byte>, e: LoadOption, z: nat)
    requires ReadOption(b, e, z)
    ensures 6 <= z && |b| >= 6 && FindZeroPair(b[6..], 0) == Some((z - 6) as nat)
  {
    FirstPairFound(b, z);
  }

  lemma ReadAt(b: seq<byte>, e: LoadOption, z: nat)
    requires |b| >= 6 && z >= 6 && FindZeroPair(b[6..], 0) == Some((z - 6) as nat)
    ensures ParseOption(b) == Ok(e) <==> ReadOption(b, e, z)
  {
    hide ParsePaths, LE, Decode, FindZeroPair, ReadPaths, TextUpTo, FirstZeroPair;
    FirstPairFound(b, z);
    assert z + 1 < |b| by {
      assert FirstZeroPair(b, z);
    }
    AttributeBits(b[..4]);
    TextRead(b, z, e.description);
    var n := U16(b[4..6]);
    if z + 3 + n <= |b| {
      AllPathsRead(b[z + 3..z + 3 + n], e.filePath, e.extraPaths);
    }
  }

  lemma {:induction false} PathAccepted(d: DevicePath)
    ensures PathBytes(d).Ok? <==> forall i :: 0 <= i < |d| ==> Writable(d[i])
  {
    hide Node, HardDriveBytes, Writable, Replace, Encode;
    if d != [] {
      ElemAccepted(d[0]);
      PathAccepted(d[1..]);
      assert forall i :: 1 <= i < |d| ==> d[i] == d[1..][i - 1];
    }
  }

  lemma ElemAccepted(e: Elem)
    ensures Writable(e) <==> Fits(e)
  {
  }

  predicate AllWritable(ds: seq<DevicePath>) {
    forall j, i :: 0 <= j < |ds| && 0 <= i < |ds[j]| ==> Writable(ds[j][i])
  }

  lemma {:induction false} PathsAccepted(ds: seq<DevicePath>)
    ensures ExtraBytes(ds).Ok? <==> AllWritable(ds)
  {
    hide PathBytes, Writable;
    if ds != [] {
      PathAccepted(ds[0]);
      PathsAccepted(ds[1..]);
      assert forall j :: 1 <= j < |ds| ==> ds[j] == ds[1..][j - 1];
      assert forall j :: 0 <= j < |ds[1..]| ==> ds[1..][j] == ds[j + 1];
    }
  }

  /** What the printer of load options refuses, in the order in which it looks. */
  lemma OptionRefused(e: LoadOption)
    ensures var r, writable := OptionBytes(e), AllWritable([e.filePath] + e.extraPaths);
      && (r.Err? && r.error.Path? <==> !writable)
      && (writable ==>
          exists paths ::
            && WrittenPaths(paths, [e.filePath] + e.extraPaths)
            && (r == Err(PathsTooBig) <==> |paths| > 0xFFFF)
            && (r == Err(NullInDescription) <==> |paths| <= 0xFFFF && 0 in e.description)
            && (r.Ok? <==> |paths| <= 0xFFFF && 0 !in e.description))
  {
    hide PathBytes, AllWritable, WrittenPaths;
    var all := [e.filePath] + e.extraPaths;
    PathsAccepted(all);
    assert all[0] == e.filePath && all[1..] == e.extraPaths;
    if AllPathBytes(e).Ok? {
      AllWritten(e, AllPathBytes(e).value);
    }
  }

  /** What the parser of load options refuses, in the order in which it looks. */
  lemma OptionReadErrors(b: seq<byte>)
    ensures var r := ParseOption(b);
      && (r == Err(TooShort) <==> |b| < 6)
      && (r == Err(NoTerminator) <==> |b| >= 6 && forall z :: !FirstZeroPair(b, z))
      && (r == Err(PathOverrun) <==> exists z :: FirstZeroPair(b, z) && z + 3 + Pair(b[4], b[5]) > |b|)
  {
    hide ParsePaths, LE, Decode, FindZeroPair, FirstZeroPair;
    if |b| >= 6 {
      var r := FindZeroPair(b[6..], 0);
      forall z: nat | z >= 6
        ensures r == Some((z - 6) as nat) <==> FirstZeroPair(b, z)
      {
        FirstPairFound(b, z);
      }
      if r.Some? {
        assert FirstZeroPair(b, r.value + 6);
      }
    }
    PairIsInside(b);
  }

  lemma PairIsInside(b: seq<byte>)
    ensures forall z :: FirstZeroPair(b, z) ==> 6 <= z < |b| - 1
  {
  }

  // ---------------------------------------------------------------- boot order

  lemma BootOrderOnWire(order: BootOrder, b: seq<byte>)
    ensures Encode(order) == b <==> UnitsIn(b, order)
    ensures ParseBootOrder(b) == Some(order) <==> UnitsIn(b, order)
  {
    hide Encode, Decode;
    UnitsOnWire(b, order);
    assert UnitsIn(b, order) ==> |b| % 2 == 0;
  }
}
