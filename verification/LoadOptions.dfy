/** EFI_LOAD_OPTION (UEFI 2.10, section 3.1.3) and the BootOrder variable:
    internal/pkg/efivarfs/boot.go. */
module LoadOptions {
  import opened Wrappers
  import opened Binary
  import opened DevicePaths
  import opened Distinct

  datatype LoadOption = LoadOption(
    description: seq<uint16>,
    inactive: bool,
    hidden: bool,
    category: byte,
    filePath: DevicePath,
    extraPaths: seq<DevicePath>,
    optionalData: seq<byte>)

  datatype OptionError =
    | Path(error: Error) | PathsTooBig | NullInDescription
    | TooShort | NoTerminator | PathOverrun

  // ---------------------------------------------------------------- printer

  function Attributes(e: LoadOption): uint32 {
    (e.category % 0x20) * 0x100 + (if e.hidden then 0x08 else 0) + (if e.inactive then 0 else 0x01)
  }

  /** The extra paths, one after another. */
  function ExtraBytes(ds: seq<DevicePath>): Result<seq<byte>, Error> {
    if ds == [] then Ok([])
    else
      var first := PathBytes(ds[0]);
      if first.Err? then first else Prepend(first.value, ExtraBytes(ds[1..]))
  }

  function AllPathBytes(e: LoadOption): Result<seq<byte>, Error> {
    var first := PathBytes(e.filePath);
    if first.Err? then first else Prepend(first.value, ExtraBytes(e.extraPaths))
  }

  const NULL: seq<byte> := [0x00, 0x00]

  function OptionBytes(e: LoadOption): Result<seq<byte>, OptionError> {
    var paths := AllPathBytes(e);
    if paths.Err? then Err(Path(paths.error))
    else if |paths.value| > 0xFFFF then Err(PathsTooBig)
    else if 0 in e.description then Err(NullInDescription)
    else Ok(PutLE(Attributes(e), 4) + PutU16(|paths.value|) + Encode(e.description) + NULL + paths.value + e.optionalData)
  }

  method MarshalLoadOption(e: LoadOption) returns (r: Result<seq<byte>, OptionError>)
    ensures r == OptionBytes(e)
  {
    var data := PutLE(Attributes(e), 4);
    var raw := MarshalDevicePath(e.filePath);
    if raw.Err? {
      return Err(Path(raw.error));
    }
    var filePathRaw := raw.value;
    assert e.extraPaths[0..] == e.extraPaths;
    for i := 0 to |e.extraPaths|
      invariant AllPathBytes(e) == Prepend(filePathRaw, ExtraBytes(e.extraPaths[i..]))
    {
      assert e.extraPaths[i..][1..] == e.extraPaths[i + 1..];
      var ep := MarshalDevicePath(e.extraPaths[i]);
      if ep.Err? {
        return Err(Path(ep.error));
      }
      PrependTwice(filePathRaw, ep.value, ExtraBytes(e.extraPaths[i + 1..]));
      filePathRaw := filePathRaw + ep.value;
    }
    assert filePathRaw + [] == filePathRaw;
    if |filePathRaw| > 0xFFFF {
      return Err(PathsTooBig);
    }
    data := data + PutU16(|filePathRaw|);
    if 0 in e.description {
      return Err(NullInDescription);
    }
    data := data + Encode(e.description);
    data := data + NULL;
    data := data + filePathRaw;
    data := data + e.optionalData;
    return Ok(data);
  }

  // ---------------------------------------------------------------- parser

  predicate ZeroPairAt(b: seq<byte>, k: nat) {
    k + 1 < |b| && b[k] == 0 && b[k + 1] == 0
  }

  /** The first position at or after `from`, of any parity, where two zero bytes stand together. */
  function FindZeroPair(b: seq<byte>, from: nat): (r: Option<nat>)
    ensures r.Some? ==> from <= r.value && ZeroPairAt(b, r.value)
    ensures r.Some? ==> forall k :: from <= k < r.value ==> !ZeroPairAt(b, k)
    ensures r.None? ==> forall k :: from <= k ==> !ZeroPairAt(b, k)
    decreases |b| - from
  {
    if from + 1 >= |b| then None
    else if ZeroPairAt(b, from) then Some(from)
    else FindZeroPair(b, from + 1)
  }

  function ParseExtras(rest: seq<byte>, ds: seq<DevicePath>): Result<seq<DevicePath>, Error>
    decreases |rest|
  {
    if rest == [] then Ok(ds)
    else
      var d := ParseFrom(rest, []);
      if d.Err? then Err(d.error)
      else
        ParseShrinks(rest);
        ParseExtras(d.value.1, ds + [d.value.0])
  }

  lemma ParseShrinks(data: seq<byte>)
    requires ParseFrom(data, []).Ok?
    ensures |ParseFrom(data, []).value.1| < |data|
  {
    Reparse(data, []);
    EndIsLast(ParseFrom(data, []).value.0);
  }

  lemma {:induction false} EndIsLast(d: DevicePath)
    requires PathBytes(d).Ok?
    ensures |PathBytes(d).value| >= 4
  {
    if d != [] {
      EndIsLast(d[1..]);
    }
  }

  function ParsePaths(data: seq<byte>): Result<(DevicePath, seq<DevicePath>), Error> {
    var first := ParseFrom(data, []);
    if first.Err? then Err(first.error)
    else
      var extras := ParseExtras(first.value.1, []);
      if extras.Err? then Err(extras.error) else Ok((first.value.0, extras.value))
  }

  function ParseOption(data: seq<byte>): Result<LoadOption, OptionError> {
    if |data| < 6 then Err(TooShort)
    else
      var attrs := LE(data[..4]);
      var lenPath := U16(data[4..6]);
      var nullIdx := FindZeroPair(data[6..], 0);
      if nullIdx.None? then Err(NoTerminator)
      else
        // the scan stops one byte before the terminator when the last unit's high byte is zero
        var descriptionEnd := 6 + nullIdx.value + 1;
        var pathStart := descriptionEnd + 2;
        if pathStart + lenPath > |data| then Err(PathOverrun)
        else
          var paths := ParsePaths(data[pathStart..pathStart + lenPath]);
          if paths.Err? then Err(Path(paths.error))
          else Ok(LoadOption(
            Decode(data[6..descriptionEnd]),
            attrs % 2 == 0,
            attrs / 0x08 % 2 == 1,
            attrs / 0x100 % 0x20,
            paths.value.0,
            paths.value.1,
            data[pathStart + lenPath..]))
  }

  method UnmarshalLoadOption(data: seq<byte>) returns (r: Result<LoadOption, OptionError>)
    ensures r == ParseOption(data)
  {
    if |data| < 6 {
      return Err(TooShort);
    }
    var attrs := LE(data[..4]);
    var category, hidden, inactive := attrs / 0x100 % 0x20, attrs / 0x08 % 2 == 1, attrs % 2 == 0;
    var lenPath := U16(data[4..6]);
    var nullIdx := FindZeroPair(data[6..], 0);
    if nullIdx.None? {
      return Err(NoTerminator);
    }
    var descriptionEnd := 6 + nullIdx.value + 1;
    var description := Decode(data[6..descriptionEnd]);
    descriptionEnd := descriptionEnd + 2;
    if descriptionEnd + lenPath > |data| {
      return Err(PathOverrun);
    }
    var filePathData := data[descriptionEnd..descriptionEnd + lenPath];
    var first := UnmarshalDevicePath(filePathData);
    if first.Err? {
      return Err(Path(first.error));
    }
    var filePath := first.value.0;
    filePathData := first.value.1;
    var extraPaths: seq<DevicePath> := [];
    ghost var unread := filePathData;
    while |filePathData| > 0
      invariant ParseExtras(unread, []) == ParseExtras(filePathData, extraPaths)
      decreases |filePathData|
    {
      var extra := UnmarshalDevicePath(filePathData);
      if extra.Err? {
        return Err(Path(extra.error));
      }
      ParseShrinks(filePathData);
      extraPaths := extraPaths + [extra.value.0];
      filePathData := extra.value.1;
    }
    var optionalData: seq<byte> := [];
    assert descriptionEnd + lenPath == |data| ==> data[descriptionEnd + lenPath..] == [];
    if descriptionEnd + lenPath < |data| {
      optionalData := data[descriptionEnd + lenPath..];
    }
    return Ok(LoadOption(description, inactive, hidden, category, filePath, extraPaths, optionalData));
  }

  // ---------------------------------------------------------------- round trip

  /** The descriptions whose end the byte scan finds. */
  predicate ScanFriendly(units: seq<uint16>) {
    && units != []
    && units[|units| - 1] < 0x100
    && forall i :: 0 <= i < |units| - 1 ==> !(units[i] < 0x100 && units[i + 1] % 0x100 == 0)
  }

  /** The bytes from the description on, with anything after the terminator. */
  function Terminated(units: seq<uint16>, tail: seq<byte>): seq<byte> {
    Encode(units) + NULL + tail
  }

  /** Two zero bytes at `j`, before the terminator: the high byte of a unit and the low byte
      of what follows it. */
  predicate Confusable(units: seq<uint16>, j: nat)
    requires j / 2 < |units|
  {
    j % 2 == 1 && units[j / 2] < 0x100 && (j / 2 + 1 == |units| || units[j / 2 + 1] % 0x100 == 0)
  }

  lemma TerminatedUnit(units: seq<uint16>, tail: seq<byte>, i: nat)
    requires i <= |units|
    ensures var b, u := Terminated(units, tail), if i < |units| then units[i] else 0;
      b[2 * i] == u % 0x100 && b[2 * i + 1] == u / 0x100
  {
    if i < |units| {
      assert Terminated(units, tail)[2 * i] == Encode(units)[2 * i];
      assert Terminated(units, tail)[2 * i + 1] == Encode(units)[2 * i + 1];
    }
  }

  lemma ZeroPairMeaning(units: seq<uint16>, tail: seq<byte>, j: nat)
    requires 0 !in units && j < 2 * |units|
    ensures ZeroPairAt(Terminated(units, tail), j) <==> Confusable(units, j)
  {
    var i := j / 2;
    TerminatedUnit(units, tail, i);
    TerminatedUnit(units, tail, i + 1);
    assert units[i] != 0;
    hide Terminated;
    assert j == 2 * i || j == 2 * i + 1;
  }

  lemma FriendlyMeaning(units: seq<uint16>)
    ensures ScanFriendly(units) <==>
      units != [] && Confusable(units, 2 * |units| - 1) && forall j: nat :: j < 2 * |units| - 1 ==> !Confusable(units, j)
  {
    forall i | 0 <= i < |units| - 1
      ensures Confusable(units, 2 * i + 1) <==> units[i] < 0x100 && units[i + 1] % 0x100 == 0
    {
    }
  }

  /** The scan lands on the true end of the description exactly for the friendly ones. */
  lemma ScanLandsOnEnd(units: seq<uint16>, tail: seq<byte>)
    requires 0 !in units
    ensures var r := FindZeroPair(Terminated(units, tail), 0);
      && r.Some? && r.value <= 2 * |units|
      && (r.value % 2 == 0 ==> r.value == 2 * |units|)
      && (r.value + 1 == 2 * |units| <==> ScanFriendly(units))
  {
    TerminatedUnit(units, tail, |units|);
    forall j: nat | j < 2 * |units|
      ensures ZeroPairAt(Terminated(units, tail), j) <==> Confusable(units, j)
    {
      ZeroPairMeaning(units, tail, j);
    }
    FriendlyMeaning(units);
    assert ZeroPairAt(Terminated(units, tail), 2 * |units|);
    hide Terminated, ScanFriendly;
  }

  lemma AttributesRoundTrip(e: LoadOption)
    ensures var a := Attributes(e);
      (a % 2 == 0) == e.inactive && (a / 0x08 % 2 == 1) == e.hidden && a / 0x100 % 0x20 == e.category % 0x20
  {
  }

  function NormaliseAll(ds: seq<DevicePath>): seq<DevicePath> {
    if ds == [] then [] else [Normalise(ds[0])] + NormaliseAll(ds[1..])
  }

  predicate NoneReserved(ds: seq<DevicePath>) {
    forall i :: 0 <= i < |ds| ==> NoReserved(ds[i])
  }

  function NormaliseOption(e: LoadOption): LoadOption {
    e.(filePath := Normalise(e.filePath), extraPaths := NormaliseAll(e.extraPaths))
  }

  lemma {:induction false} ExtrasRoundTrip(ds: seq<DevicePath>, acc: seq<DevicePath>)
    requires ExtraBytes(ds).Ok? && NoneReserved(ds)
    ensures ParseExtras(ExtraBytes(ds).value, acc) == Ok(acc + NormaliseAll(ds))
  {
    if ds == [] {
      assert acc + [] == acc;
    } else {
      hide PathBytes, ParseFrom;
      var rest := ExtraBytes(ds[1..]).value;
      PrefixCode(ds[0], rest);
      EndIsLast(ds[0]);
      ExtrasRoundTrip(ds[1..], acc + [Normalise(ds[0])]);
      assert (acc + [Normalise(ds[0])]) + NormaliseAll(ds[1..]) == acc + NormaliseAll(ds);
    }
  }

  lemma {:induction false} ParsedExtras(rest: seq<byte>, acc: seq<DevicePath>)
    requires ParseExtras(rest, acc).Ok?
    requires forall i :: 0 <= i < |acc| ==> Parsed(acc[i])
    ensures var ds := ParseExtras(rest, acc).value;
      && (forall i :: 0 <= i < |ds| ==> Parsed(ds[i])) && acc <= ds
      && ExtraBytes(ds[|acc|..]).Ok? && |ExtraBytes(ds[|acc|..]).value| <= |rest|
    decreases |rest|
  {
    var ds := ParseExtras(rest, acc).value;
    if rest == [] {
      assert ds[|acc|..] == [];
    } else {
      hide PathBytes, ParseFrom;
      ParseShrinks(rest);
      Reparse(rest, []);
      ParsedPath(rest, []);
      var (d, tail) := ParseFrom(rest, []).value;
      ParsedExtras(tail, acc + [d]);
      assert ds[|acc|..][0] == d;
      assert ds[|acc|..][1..] == ds[|acc + [d]|..];
    }
  }

  lemma {:induction false} NormaliseAllIdentity(ds: seq<DevicePath>)
    requires forall i :: 0 <= i < |ds| ==> Parsed(ds[i])
    ensures NormaliseAll(ds) == ds
  {
    if ds != [] {
      NormaliseIdentity(ds[0]);
      NormaliseAllIdentity(ds[1..]);
    }
  }

  lemma {:induction false} NormaliseAllKeepsReserved(ds: seq<DevicePath>)
    ensures |NormaliseAll(ds)| == |ds|
    ensures forall i :: 0 <= i < |ds| ==> (NoReserved(NormaliseAll(ds)[i]) <==> NoReserved(ds[i]))
  {
    if ds != [] {
      NormaliseKeepsReserved(ds[0]);
      NormaliseAllKeepsReserved(ds[1..]);
    }
  }

  lemma PathsRoundTrip(e: LoadOption)
    requires AllPathBytes(e).Ok? && NoReserved(e.filePath) && NoneReserved(e.extraPaths)
    ensures ParsePaths(AllPathBytes(e).value) == Ok((Normalise(e.filePath), NormaliseAll(e.extraPaths)))
  {
    hide PathBytes, ParseFrom;
    PrefixCode(e.filePath, ExtraBytes(e.extraPaths).value);
    ExtrasRoundTrip(e.extraPaths, []);
    assert [] + NormaliseAll(e.extraPaths) == NormaliseAll(e.extraPaths);
  }

  /** Every path the parser returns is free of reserved elements, is normal, and marshals. */
  lemma ParsedPaths(data: seq<byte>)
    requires ParsePaths(data).Ok?
    ensures var (d, ds) := ParsePaths(data).value;
      && Parsed(d) && (forall i :: 0 <= i < |ds| ==> Parsed(ds[i]))
      && PathBytes(d).Ok? && ExtraBytes(ds).Ok?
      && |PathBytes(d).value| + |ExtraBytes(ds).value| <= |data|
  {
    hide PathBytes, ParseFrom;
    ParsedPath(data, []);
    Reparse(data, []);
    var (d, rest) := ParseFrom(data, []).value;
    ParsedExtras(rest, []);
    var ds := ParseExtras(rest, []).value;
    assert ds[0..] == ds;
  }

  /** The options that survive the round trip. */
  predicate Faithful(e: LoadOption) {
    ScanFriendly(e.description) && e.category < 0x20 && NoReserved(e.filePath) && NoneReserved(e.extraPaths)
  }

  lemma OptionLayout(e: LoadOption)
    requires OptionBytes(e).Ok?
    ensures AllPathBytes(e).Ok? && |AllPathBytes(e).value| <= 0xFFFF && 0 !in e.description
    ensures var data, paths, n := OptionBytes(e).value, AllPathBytes(e).value, |e.description|;
      && data[..4] == PutLE(Attributes(e), 4)
      && data[4..6] == PutU16(|paths|)
      && data[6..] == Terminated(e.description, paths + e.optionalData)
      && data[6..6 + 2 * n] == Encode(e.description)
      && |data| == 8 + 2 * n + |paths| + |e.optionalData|
      && data[8 + 2 * n..8 + 2 * n + |paths|] == paths
      && data[8 + 2 * n + |paths|..] == e.optionalData
  {
    hide AllPathBytes, Attributes, Encode, PutLE, PutU16;
    var paths := AllPathBytes(e).value;
    Layout(PutLE(Attributes(e), 4), PutU16(|paths|), Encode(e.description), NULL, paths, e.optionalData);
  }

  lemma Layout(a: seq<byte>, b: seq<byte>, c: seq<byte>, z: seq<byte>, p: seq<byte>, o: seq<byte>)
    requires |a| == 4 && |b| == 2 && |z| == 2
    ensures var all, n := a + b + c + z + p + o, |c|;
      && all[..4] == a && all[4..6] == b && all[6..] == c + z + (p + o)
      && all[6..6 + n] == c && all[8 + n..8 + n + |p|] == p && all[8 + n + |p|..] == o
  {
  }

  lemma FaithfulSurvives(e: LoadOption)
    requires OptionBytes(e).Ok? && Faithful(e)
    ensures ParseOption(OptionBytes(e).value) == Ok(NormaliseOption(e))
  {
    hide AllPathBytes, OptionBytes, PathBytes, ParseFrom, FindZeroPair, ParsePaths, Attributes, Encode, Decode;
    OptionLayout(e);
    var paths := AllPathBytes(e).value;
    ScanLandsOnEnd(e.description, paths + e.optionalData);
    Widths();
    LEOfPut(Attributes(e), 4);
    AttributesRoundTrip(e);
    assert U16(PutU16(|paths|)) == |paths|;
    DecodeEncode(e.description);
    PathsRoundTrip(e);
  }

  lemma OnlyFaithfulSurvives(e: LoadOption)
    requires OptionBytes(e).Ok? && ParseOption(OptionBytes(e).value) == Ok(NormaliseOption(e))
    ensures Faithful(e)
  {
    hide AllPathBytes, OptionBytes, PathBytes, ParseFrom, FindZeroPair, ParsePaths, Attributes, Encode, Decode;
    var data := OptionBytes(e).value;
    OptionLayout(e);
    ScanLandsOnEnd(e.description, AllPathBytes(e).value + e.optionalData);
    var nullIdx := FindZeroPair(data[6..], 0).value;
    var pathStart := nullIdx + 9;
    // a scan that stops elsewhere yields a description of another length
    assert |Decode(data[6..7 + nullIdx])| == |e.description|;
    ParsedPaths(data[pathStart..pathStart + U16(data[4..6])]);
    NormaliseKeepsReserved(e.filePath);
    NormaliseAllKeepsReserved(e.extraPaths);
  }

  /** Printing then parsing gives back the option, exactly for the faithful ones. */
  lemma RoundTrip(e: LoadOption)
    requires OptionBytes(e).Ok?
    ensures ParseOption(OptionBytes(e).value) == Ok(NormaliseOption(e)) <==> Faithful(e)
  {
    hide *;
    if Faithful(e) {
      FaithfulSurvives(e);
    } else if ParseOption(OptionBytes(e).value) == Ok(NormaliseOption(e)) {
      OnlyFaithfulSurvives(e);
    }
  }

  function Plain(description: seq<uint16>): LoadOption {
    LoadOption(description, false, false, 0, [], [], [])
  }

  /** Two printable options that do not come back: no description at all, and one whose
      last character is outside Latin-1. */
  lemma LostDescriptions()
    ensures forall description :: description in {[], [0x4E2D]} ==>
      var e := Plain(description);
      OptionBytes(e).Ok? && ParseOption(OptionBytes(e).value) != Ok(NormaliseOption(e))
  {
    forall description: seq<uint16> | description in {[], [0x4E2D]}
      ensures OptionBytes(Plain(description)).Ok?
      ensures ParseOption(OptionBytes(Plain(description)).value) != Ok(NormaliseOption(Plain(description)))
    {
      var e := Plain(description);
      assert PathBytes(e.filePath) == Ok(END) && ExtraBytes(e.extraPaths) == Ok([]);
      assert 0 !in e.description;
      RoundTrip(e);
    }
  }

  lemma ParsedOption(data: seq<byte>)
    requires ParseOption(data).Ok?
    ensures var o := ParseOption(data).value;
      OptionBytes(o).Ok? && NormaliseOption(o) == o && (Faithful(o) <==> FindZeroPair(data[6..], 0).value % 2 == 1)
  {
    hide PathBytes, ParseFrom, ParsePaths, Decode, ExtraBytes, FindZeroPair;
    var o := ParseOption(data).value;
    var nullIdx := FindZeroPair(data[6..], 0).value;
    ParsedPaths(data[nullIdx + 9..nullIdx + 9 + U16(data[4..6])]);
    NormaliseIdentity(o.filePath);
    NormaliseAllIdentity(o.extraPaths);
    DescriptionOfScan(data[6..]);
    assert data[6..][..nullIdx + 1] == data[6..nullIdx + 7];
  }

  /** An option parsed from any bytes can be printed again; it parses back to itself exactly
      when the scan had stopped at an odd offset, that is on a whole number of units. */
  lemma ReparseOption(data: seq<byte>)
    requires ParseOption(data).Ok?
    ensures var o := ParseOption(data).value;
      && OptionBytes(o).Ok?
      && (ParseOption(OptionBytes(o).value) == Ok(o) <==> FindZeroPair(data[6..], 0).value % 2 == 1)
  {
    hide *;
    ParsedOption(data);
    RoundTrip(ParseOption(data).value);
  }

  /** The text before the first zero pair has no null, and is friendly when it is whole. */
  lemma DescriptionOfScan(b: seq<byte>)
    requires FindZeroPair(b, 0).Some?
    ensures var r := FindZeroPair(b, 0).value;
      var units := Decode(b[..r + 1]);
      0 !in units && (ScanFriendly(units) <==> r % 2 == 1)
  {
    var r := FindZeroPair(b, 0).value;
    var raw := b[..r + 1];
    var units := Decode(raw);
    forall i | 0 <= i < |units|
      ensures units[i] != 0
    {
      if 2 * i + 1 < |raw| {
        assert !ZeroPairAt(b, 2 * i);
      }
    }
    if r % 2 == 1 {
      forall i | 0 <= i < |units| - 1
        ensures !(units[i] < 0x100 && units[i + 1] % 0x100 == 0)
      {
        assert !ZeroPairAt(b, 2 * i + 1);
      }
    } else {
      assert units[|units| - 1] == REPLACEMENT;
    }
  }

  // ---------------------------------------------------------------- boot order

  type BootOrder = seq<uint16>

  method MarshalBootOrder(order: BootOrder) returns (out: seq<byte>)
    ensures out == Encode(order)
  {
    out := [];
    for i := 0 to |order|
      invariant out == Encode(order[..i])
    {
      EncodeAppend(order[..i], [order[i]]);
      assert order[..i + 1] == order[..i] + [order[i]];
      assert Encode([order[i]]) == PutU16(order[i]);
      out := out + PutU16(order[i]);
    }
    assert order[..|order|] == order;
  }

  function ParseBootOrder(d: seq<byte>): Option<BootOrder> {
    if |d| % 2 != 0 then None else Some(Decode(d))
  }

  method UnmarshalBootOrder(d: seq<byte>) returns (r: Option<BootOrder>)
    ensures r == ParseBootOrder(d)
  {
    if |d| % 2 != 0 {
      return None;
    }
    var l := |d| / 2;
    var out := new uint16[l];
    for i := 0 to l
      invariant forall k :: 0 <= k < i ==> out[k] == Decode(d)[k]
    {
      out[i] := U16(d[2 * i..2 * i + 2]);
    }
    assert out[..] == Decode(d);
    return Some(out[..]);
  }

  /** Mutually inverse: on every order, and on every byte string of even length. */
  lemma BootOrderInverse(order: BootOrder, d: seq<byte>)
    ensures ParseBootOrder(Encode(order)) == Some(order)
    ensures ParseBootOrder(d).Some? <==> |d| % 2 == 0
    ensures ParseBootOrder(d).Some? ==> Encode(ParseBootOrder(d).value) == d
  {
    DecodeEncode(order);
    if |d| % 2 == 0 {
      EncodeDecode(d);
    }
  }

  /** Deduplicate in place; the result is the first `j` entries of the same array. */
  method UniqueBootOrder(a: array<uint16>) returns (j: nat)
    modifies a
    ensures j <= a.Length && a[..j] == FirstAppearances(old(a[..])) && a[j..] == old(a[j..])
  {
    ghost var s := a[..];
    var seen: set<uint16> := {};
    j := 0;
    for i := 0 to a.Length
      invariant j <= i
      invariant forall k :: j <= k < a.Length ==> a[k] == s[k]
      invariant a[..j] == FirstAppearances(s[..i])
      invariant seen == set v | v in a[..j]
    {
      var v := a[i];
      AddNewOne([], s[..i], v);
      assert s[..i + 1] == s[..i] + [v];
      if v in seen {
        continue;
      }
      seen := seen + {v};
      a[j] := v;
      assert a[..j + 1] == a[..j] + [v];
      j := j + 1;
    }
    assert s[..a.Length] == s;
  }

  /** The same entries, no entry twice, in the order in which they first appear; doing it again
      changes nothing, and the result survives printing and parsing. */
  lemma UniqueOrderMeaning(order: BootOrder)
    ensures var u := FirstAppearances(order);
      && NoDuplicates(u)
      && InOrderOf(u, order)
      && FirstAppearances(u) == u
      && ParseBootOrder(Encode(u)) == Some(u)
  {
    var u := FirstAppearances(order);
    AddNewMeaning([], order);
    FirstAppearancesOrder(order);
    AddNewFixed(u);
    BootOrderInverse(u, []);
  }
}
