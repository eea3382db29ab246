/** EFI device paths: internal/pkg/efivarfs/devicepath.go and internal/pkg/msguid/msguid.go
    (UEFI 2.10, section 10.3: generic nodes 10.3.1, hard drive 10.3.5.1, file path 10.3.5.4). */
module DevicePaths {
  import opened Wrappers
  import opened Binary

  type Bytes4 = b: seq<byte> | |b| == 4 witness [0, 0, 0, 0]
  type Bytes16 = b: seq<byte> | |b| == 16 witness [0, 0, 0, 0, 0, 0, 0, 0, 0, 0, 0, 0, 0, 0, 0, 0]

  datatype PartitionMatch =
    | Mbr(diskSignature: Bytes4)
    | Gpt(uuid: Bytes16)
    | UnknownPartition(signature: Bytes16, format: byte, signatureType: byte)

  datatype Elem =
    | HardDrive(number: uint32, startBlock: uint64, sizeBlocks: uint64, partition: Option<PartitionMatch>)
    | FilePath(path: seq<uint16>)
    | UnknownPath(typ: byte, subType: byte, data: seq<byte>)

  type DevicePath = seq<Elem>

  datatype Error =
    | NoPartitionMatch | NullInPath | PayloadTooLarge
    | DanglingBytes | ElementOverrun | ElementTooShort | BadHardDrive | BadFilePath | MissingEnd(elements: nat)

  // ---------------------------------------------------------------- mixed-endian GUIDs

  const MIXED_ENDIAN: seq<nat> := [3, 2, 1, 0, 5, 4, 7, 6, 8, 9, 10, 11, 12, 13, 14, 15]

  function Transpose(u: Bytes16): Bytes16 {
    seq(16, i requires 0 <= i < 16 => u[MIXED_ENDIAN[i]])
  }

  /** One function serves both directions. */
  lemma TransposeInvolution(u: Bytes16)
    ensures Transpose(Transpose(u)) == u
  {
    forall i | 0 <= i < 16
      ensures Transpose(Transpose(u))[i] == u[i]
    {
      assert MIXED_ENDIAN[MIXED_ENDIAN[i]] == i;
    }
  }

  // ---------------------------------------------------------------- elements

  const ZEROS12: seq<byte> := [0, 0, 0, 0, 0, 0, 0, 0, 0, 0, 0, 0]

  function Signature(p: PartitionMatch): Bytes16 {
    match p
    case Mbr(sig) => sig + ZEROS12
    case Gpt(uuid) => Transpose(uuid)
    case UnknownPartition(sig, _, _) => sig
  }

  function Format(p: PartitionMatch): byte {
    match p
    case Mbr(_) => 1
    case Gpt(_) => 2
    case UnknownPartition(_, format, _) => format
  }

  function SignatureType(p: PartitionMatch): byte {
    match p
    case Mbr(_) => 1
    case Gpt(_) => 2
    case UnknownPartition(_, _, signatureType) => signatureType
  }

  function Typ(e: Elem): byte {
    if e.UnknownPath? then e.typ else 4
  }

  function SubType(e: Elem): byte {
    match e
    case HardDrive(_, _, _, _) => 1
    case FilePath(_) => 4
    case UnknownPath(_, subType, _) => subType
  }

  const SLASH: uint16 := 0x2F
  const BACKSLASH: uint16 := 0x5C

  function Replace(s: seq<uint16>, from: uint16, to: uint16): (r: seq<uint16>)
    ensures |r| == |s|
    ensures forall i :: 0 <= i < |s| ==> r[i] == if s[i] == from then to else s[i]
  {
    seq(|s|, i requires 0 <= i < |s| => if s[i] == from then to else s[i])
  }

  function HardDriveBytes(number: uint32, startBlock: uint64, sizeBlocks: uint64, p: PartitionMatch): (b: seq<byte>)
    ensures |b| == 38
  {
    PutLE(number, 4) + PutLE(startBlock, 8) + PutLE(sizeBlocks, 8) + Signature(p) + [Format(p), SignatureType(p)]
  }

  function ElemData(e: Elem): Result<seq<byte>, Error> {
    match e
    case HardDrive(number, startBlock, sizeBlocks, partition) =>
      if partition.None? then Err(NoPartitionMatch)
      else Ok(HardDriveBytes(number, startBlock, sizeBlocks, partition.value))
    case FilePath(path) =>
      if 0 in path then Err(NullInPath)
      else Ok(Encode(Replace(path, SLASH, BACKSLASH)) + [0, 0])
    case UnknownPath(_, _, data) => Ok(data)
  }

  function ParseHardDrive(data: seq<byte>): Result<Elem, Error> {
    if |data| != 38 then Err(BadHardDrive)
    else
      Widths();
      var number := LE(data[0..4]);
      var startBlock := LE(data[4..12]);
      var sizeBlocks := LE(data[12..20]);
      Ok(HardDrive(number, startBlock, sizeBlocks, Some(Classify(data[20..36], data[36], data[37]))))
  }

  function Classify(sig: Bytes16, format: byte, signatureType: byte): PartitionMatch {
    if format == 1 && signatureType == 1 then Mbr(sig[..4])
    else if format == 2 && signatureType == 2 then Gpt(Transpose(sig))
    else UnknownPartition(sig, format, signatureType)
  }

  function ParseFilePath(data: seq<byte>): Result<Elem, Error> {
    if |data| < 2 then Err(BadFilePath)
    else
      var units := Decode(data);
      var text := units[..|units| - 1];
      // the first null must be the last unit
      if units[|units| - 1] != 0 || 0 in text then Err(BadFilePath)
      else Ok(FilePath(Replace(text, BACKSLASH, SLASH)))
  }

  function ParseElem(t: byte, subT: byte, data: seq<byte>): Result<Elem, Error> {
    if t == 4 && subT == 1 then ParseHardDrive(data)
    else if t == 4 && subT == 4 then ParseFilePath(data)
    else Ok(UnknownPath(t, subT, data))
  }

  // ---------------------------------------------------------------- whole paths

  const END: seq<byte> := [0x7F, 0xFF, 0x04, 0x00]

  /** Header (type, subtype, length of header and payload) and payload. */
  function Node(e: Elem, payload: seq<byte>): seq<byte>
    requires |payload| + 4 <= 0xFFFF
  {
    [Typ(e), SubType(e)] + PutU16(|payload| + 4) + payload
  }

  function PathBytes(d: DevicePath): Result<seq<byte>, Error> {
    if d == [] then Ok(END)
    else
      var payload := ElemData(d[0]);
      if payload.Err? then Err(payload.error)
      else if |payload.value| + 4 > 0xFFFF then Err(PayloadTooLarge)
      else Prepend(Node(d[0], payload.value), PathBytes(d[1..]))
  }

  function Prepend(b: seq<byte>, r: Result<seq<byte>, Error>): Result<seq<byte>, Error> {
    if r.Ok? then Ok(b + r.value) else r
  }

  /** Parse from `rest` with the elements `p` already read; also returns what follows the end marker. */
  function ParseFrom(rest: seq<byte>, p: DevicePath): Result<(DevicePath, seq<byte>), Error>
    decreases |rest|
  {
    if |rest| < 4 then
      if rest != [] then Err(DanglingBytes) else Err(MissingEnd(|p|))
    else
      var length := U16(rest[2..4]);
      if length > |rest| then Err(ElementOverrun)
      else if length < 4 then Err(ElementTooShort)
      else if rest[0] == 0x7F && rest[1] == 0xFF then Ok((p, rest[length..]))
      else
        var elem := ParseElem(rest[0], rest[1], rest[4..length]);
        if elem.Err? then Err(elem.error) else ParseFrom(rest[length..], p + [elem.value])
  }

  method MarshalDevicePath(d: DevicePath) returns (r: Result<seq<byte>, Error>)
    ensures r == PathBytes(d)
  {
    var buf: seq<byte> := [];
    assert d[0..] == d;
    assert PathBytes(d).Ok? ==> [] + PathBytes(d).value == PathBytes(d).value;
    for i := 0 to |d|
      invariant PathBytes(d) == Prepend(buf, PathBytes(d[i..]))
    {
      assert d[i..][1..] == d[i + 1..];
      var elemBuf := ElemData(d[i]);
      if elemBuf.Err? {
        return Err(elemBuf.error);
      }
      if |elemBuf.value| + 4 > 0xFFFF {
        return Err(PayloadTooLarge);
      }
      ghost var before := buf;
      buf := buf + [Typ(d[i]), SubType(d[i])];
      buf := buf + PutU16(|elemBuf.value| + 4);
      buf := buf + elemBuf.value;
      assert buf == before + Node(d[i], elemBuf.value);
      PrependTwice(before, Node(d[i], elemBuf.value), PathBytes(d[i + 1..]));
    }
    return Ok(buf + END);
  }

  lemma PrependTwice(a: seq<byte>, b: seq<byte>, r: Result<seq<byte>, Error>)
    ensures Prepend(a, Prepend(b, r)) == Prepend(a + b, r)
  {
    if r.Ok? {
      assert a + (b + r.value) == (a + b) + r.value;
    }
  }

  method UnmarshalDevicePath(data: seq<byte>) returns (r: Result<(DevicePath, seq<byte>), Error>)
    ensures r == ParseFrom(data, [])
  {
    var rest := data;
    var p: DevicePath := [];
    while true
      invariant ParseFrom(data, []) == ParseFrom(rest, p)
      decreases |rest|
    {
      if |rest| < 4 {
        if |rest| != 0 {
          return Err(DanglingBytes);
        }
        break;
      }
      var t, subT := rest[0], rest[1];
      var dataLen := U16(rest[2..4]);
      if dataLen > |rest| {
        return Err(ElementOverrun);
      }
      if dataLen < 4 {
        return Err(ElementTooShort);
      }
      var elemData := rest[4..dataLen];
      rest := rest[dataLen..];
      if t == 0x7F && subT == 0xFF {
        return Ok((p, rest));
      }
      var elem := ParseElem(t, subT, elemData);
      if elem.Err? {
        return Err(elem.error);
      }
      p := p + [elem.value];
    }
    return Err(MissingEnd(|p|));
  }

  // ---------------------------------------------------------------- round trips

  /** An uninterpreted element that carries a type the parser does interpret. */
  predicate Reserved(e: Elem) {
    e.UnknownPath? && (e.typ, e.subType) in {(4, 1), (4, 4), (0x7F, 0xFF)}
  }

  predicate NoReserved(d: DevicePath) {
    forall i :: 0 <= i < |d| ==> !Reserved(d[i])
  }

  /** File paths come back with forward slashes; raw partition data comes back as the
      MBR or GPT match it denotes. */
  function NormaliseElem(e: Elem): Elem {
    match e
    case HardDrive(n, s, z, Some(UnknownPartition(sig, format, st))) => HardDrive(n, s, z, Some(Classify(sig, format, st)))
    case FilePath(path) => FilePath(Replace(path, BACKSLASH, SLASH))
    case _ => e
  }

  function Normalise(d: DevicePath): DevicePath {
    if d == [] then [] else [NormaliseElem(d[0])] + Normalise(d[1..])
  }

  lemma HardDriveRoundTrip(number: uint32, startBlock: uint64, sizeBlocks: uint64, p: PartitionMatch)
    ensures ParseHardDrive(HardDriveBytes(number, startBlock, sizeBlocks, p))
         == Ok(NormaliseElem(HardDrive(number, startBlock, sizeBlocks, Some(p))))
  {
    var b := HardDriveBytes(number, startBlock, sizeBlocks, p);
    Widths();
    LEOfPut(number, 4);
    LEOfPut(startBlock, 8);
    LEOfPut(sizeBlocks, 8);
    assert b[0..4] == PutLE(number, 4);
    assert b[4..12] == PutLE(startBlock, 8);
    assert b[12..20] == PutLE(sizeBlocks, 8);
    assert b[20..36] == Signature(p);
    match p
    case Mbr(sig) => assert Signature(p)[..4] == sig;
    case Gpt(uuid) => TransposeInvolution(uuid);
    case UnknownPartition(_, _, _) =>
  }

  lemma FilePathRoundTrip(path: seq<uint16>)
    requires 0 !in path
    ensures ParseFilePath(Encode(Replace(path, SLASH, BACKSLASH)) + [0, 0])
         == Ok(FilePath(Replace(path, BACKSLASH, SLASH)))
  {
    var text := Replace(path, SLASH, BACKSLASH);
    var units := text + [0];
    EncodeAppend(text, [0]);
    assert Encode(units) == Encode(text) + [0, 0];
    DecodeEncode(units);
    assert units[..|units| - 1] == text;
    assert Replace(text, BACKSLASH, SLASH) == Replace(path, BACKSLASH, SLASH);
  }

  lemma ElemRoundTrip(e: Elem)
    requires ElemData(e).Ok? && !Reserved(e)
    ensures ParseElem(Typ(e), SubType(e), ElemData(e).value) == Ok(NormaliseElem(e))
    ensures !(Typ(e) == 0x7F && SubType(e) == 0xFF)
  {
    match e
    case HardDrive(n, s, z, partition) => HardDriveRoundTrip(n, s, z, partition.value);
    case FilePath(path) => FilePathRoundTrip(path);
    case UnknownPath(_, _, _) =>
  }

  predicate Fits(e: Elem) {
    ElemData(e).Ok? && |ElemData(e).value| + 4 <= 0xFFFF
  }

  lemma BytesCons(d: DevicePath, tail: seq<byte>)
    requires d != [] && PathBytes(d).Ok?
    ensures Fits(d[0]) && PathBytes(d[1..]).Ok?
    ensures PathBytes(d).value + tail == Node(d[0], ElemData(d[0]).value) + (PathBytes(d[1..]).value + tail)
  {
  }

  lemma ParseOfNode(e: Elem, rest: seq<byte>, p: DevicePath)
    requires Fits(e) && !Reserved(e)
    ensures ParseFrom(Node(e, ElemData(e).value) + rest, p) == ParseFrom(rest, p + [NormaliseElem(e)])
  {
    var payload := ElemData(e).value;
    var all := Node(e, payload) + rest;
    var length: uint16 := |payload| + 4;
    assert all[2..4] == PutU16(length) && U16(PutU16(length)) == length;
    assert all[4..length] == payload;
    assert all[length..] == rest;
    ElemRoundTrip(e);
  }

  lemma ParseOfEnd(tail: seq<byte>, p: DevicePath)
    ensures ParseFrom(END + tail, p) == Ok((p, tail))
  {
    assert (END + tail)[2..4] == [4, 0];
    assert (END + tail)[4..] == tail;
  }

  lemma ParseStep(d: DevicePath, tail: seq<byte>, p: DevicePath)
    requires d != [] && PathBytes(d).Ok? && !Reserved(d[0])
    ensures PathBytes(d[1..]).Ok?
    ensures ParseFrom(PathBytes(d).value + tail, p)
         == ParseFrom(PathBytes(d[1..]).value + tail, p + [NormaliseElem(d[0])])
  {
    BytesCons(d, tail);
    ParseOfNode(d[0], PathBytes(d[1..]).value + tail, p);
  }

  lemma {:induction false} ParseOfBytes(d: DevicePath, tail: seq<byte>, p: DevicePath)
    requires PathBytes(d).Ok? && NoReserved(d)
    ensures ParseFrom(PathBytes(d).value + tail, p) == Ok((p + Normalise(d), tail))
  {
    hide ParseFrom;
    if d == [] {
      ParseOfEnd(tail, p);
      assert p + [] == p;
    } else {
      ParseStep(d, tail, p);
      ParseOfBytes(d[1..], tail, p + [NormaliseElem(d[0])]);
      assert p + Normalise(d) == (p + [NormaliseElem(d[0])]) + Normalise(d[1..]);
    }
  }

  /** What the parser can produce: no reserved element, nothing left to normalise. */
  predicate Parsed(d: DevicePath) {
    forall i :: 0 <= i < |d| ==> !Reserved(d[i]) && NormaliseElem(d[i]) == d[i] && ElemData(d[i]).Ok?
  }

  lemma ParsedElem(t: byte, subT: byte, data: seq<byte>)
    requires ParseElem(t, subT, data).Ok? && !(t == 0x7F && subT == 0xFF)
    ensures var e := ParseElem(t, subT, data).value;
      !Reserved(e) && NormaliseElem(e) == e && ElemData(e).Ok? && |ElemData(e).value| == |data|
  {
    if t == 4 && subT == 4 {
      var units := Decode(data);
      var text := units[..|units| - 1];
      var path := Replace(text, BACKSLASH, SLASH);
      assert Replace(path, BACKSLASH, SLASH) == path;
      assert 0 !in path;
      DecodeOdd(data);
    }
  }

  lemma {:induction false} ParsedPath(rest: seq<byte>, p: DevicePath)
    requires ParseFrom(rest, p).Ok? && Parsed(p)
    ensures var (d, tail) := ParseFrom(rest, p).value;
      && Parsed(d) && p <= d
      && PathBytes(d[|p|..]).Ok? && |PathBytes(d[|p|..]).value| + |tail| <= |rest|
    decreases |rest|
  {
    var length := U16(rest[2..4]);
    var (d, tail) := ParseFrom(rest, p).value;
    if rest[0] == 0x7F && rest[1] == 0xFF {
      assert d[|p|..] == [];
    } else {
      var data := rest[4..length];
      var elem := ParseElem(rest[0], rest[1], data).value;
      ParsedElem(rest[0], rest[1], data);
      ParsedPath(rest[length..], p + [elem]);
      assert d[|p|..][0] == elem;
      assert d[|p|..][1..] == d[|p + [elem]|..];
    }
  }

  lemma {:induction false} NormaliseIdentity(d: DevicePath)
    requires Parsed(d)
    ensures Normalise(d) == d
  {
    if d != [] {
      NormaliseIdentity(d[1..]);
    }
  }

  lemma NoReservedCons(e: Elem, d: DevicePath)
    ensures NoReserved([e] + d) <==> !Reserved(e) && NoReserved(d)
  {
    assert ([e] + d)[0] == e && ([e] + d)[1..] == d;
    if NoReserved([e] + d) {
      assert forall i :: 0 <= i < |d| ==> d[i] == ([e] + d)[i + 1];
    }
  }

  lemma {:induction false} NormaliseKeepsReserved(d: DevicePath)
    ensures NoReserved(Normalise(d)) <==> NoReserved(d)
  {
    if d != [] {
      NormaliseKeepsReserved(d[1..]);
      NoReservedCons(d[0], d[1..]);
      NoReservedCons(NormaliseElem(d[0]), Normalise(d[1..]));
      assert d == [d[0]] + d[1..];
    }
  }

  /** Device paths are a prefix code, exactly for the paths without reserved elements. */
  lemma PrefixCode(d: DevicePath, tail: seq<byte>)
    requires PathBytes(d).Ok?
    ensures ParseFrom(PathBytes(d).value + tail, []) == Ok((Normalise(d), tail)) <==> NoReserved(d)
  {
    if NoReserved(d) {
      ParseOfBytes(d, tail, []);
      assert [] + Normalise(d) == Normalise(d);
    } else if ParseFrom(PathBytes(d).value + tail, []) == Ok((Normalise(d), tail)) {
      ParsedPath(PathBytes(d).value + tail, []);
      NormaliseKeepsReserved(d);
    }
  }

  /** A path parsed from any bytes marshals, into no more bytes, and parses back to itself. */
  lemma Reparse(data: seq<byte>, tail: seq<byte>)
    requires ParseFrom(data, []).Ok?
    ensures var (d, rest) := ParseFrom(data, []).value;
      && PathBytes(d).Ok? && |PathBytes(d).value| + |rest| <= |data|
      && ParseFrom(PathBytes(d).value + tail, []) == Ok((d, tail))
  {
    var (d, rest) := ParseFrom(data, []).value;
    ParsedPath(data, []);
    assert d[0..] == d;
    NormaliseIdentity(d);
    PrefixCode(d, tail);
  }
}
