/** The boot entries of the EFI variable store: internal/pkg/efivarfs/variables.go over
    the store of internal/pkg/efivarfs/mock.go. */
module BootVariables {
  import opened Wrappers
  import opened Binary
  import opened DevicePaths
  import opened LoadOptions

  type Scope = Bytes16

  /** 8be4df61-93ca-11d2-aa0d-00e098032b8c */
  const GLOBAL: Scope := [0x8B, 0xE4, 0xDF, 0x61, 0x93, 0xCA, 0x11, 0xD2, 0xAA, 0x0D, 0x00, 0xE0, 0x98, 0x03, 0x2B, 0x8C]

  const NON_VOLATILE: uint32 := 0x01
  const RUNTIME_ACCESS: uint32 := 0x04

  datatype Variable = Variable(attrs: uint32, data: seq<byte>)

  type Variables = map<string, Variable>

  // ---------------------------------------------------------------- store

  class Mock {
    var variables: map<Scope, Variables>

    constructor ()
      ensures variables == map[]
    {
      variables := map[];
    }

    function In(scope: Scope): Variables
      reads this
    {
      if scope in variables then variables[scope] else map[]
    }

    method Write(scope: Scope, name: string, attrs: uint32, value: seq<byte>)
      modifies this
      ensures In(scope) == old(In(scope))[name := Variable(attrs, value)]
      ensures forall s :: s != scope ==> In(s) == old(In(s))
    {
      if scope !in variables {
        variables := variables[scope := map[]];
      }
      variables := variables[scope := variables[scope][name := Variable(attrs, value)]];
    }

    method Delete(scope: Scope, name: string) returns (existed: bool)
      modifies this
      ensures existed <==> name in old(In(scope))
      ensures In(scope) == old(In(scope)) - {name}
      ensures forall s :: s != scope ==> In(s) == old(In(s))
    {
      if scope !in variables || name !in variables[scope] {
        return false;
      }
      variables := variables[scope := variables[scope] - {name}];
      return true;
    }

    method Read(scope: Scope, name: string) returns (r: Option<Variable>)
      ensures r == Get(In(scope), name)
    {
      return if scope in variables && name in variables[scope] then Some(variables[scope][name]) else None;
    }

    /** The names in the arbitrary order in which a map yields its keys. */
    method List(scope: Scope) returns (names: seq<string>)
      ensures forall n :: n in names <==> n in In(scope)
    {
      names := [];
      var left := In(scope).Keys;
      while left != {}
        invariant forall n :: n in names <==> n in In(scope) && n !in left
        invariant left <= In(scope).Keys
      {
        var n :| n in left;
        left := left - {n};
        names := names + [n];
      }
    }
  }

  function Get(vars: Variables, name: string): Option<Variable> {
    if name in vars then Some(vars[name]) else None
  }

  // ---------------------------------------------------------------- names

  function HexDigit(d: nat, upper: bool): char
    requires d < 16
  {
    if d < 10 then '0' + d as char
    else if upper then 'A' + (d - 10) as char else 'a' + (d - 10) as char
  }

  function HexDigits(n: nat, upper: bool): string {
    if n < 16 then [HexDigit(n, upper)] else HexDigits(n / 16, upper) + [HexDigit(n % 16, upper)]
  }

  function Pad(s: string, width: nat): string {
    if |s| >= width then s else seq(width - |s|, _ => '0') + s
  }

  /** "Boot%04X" and "Boot%04x"; a sign takes one of the four places. */
  function Name(idx: int, upper: bool): string {
    "Boot" + if idx < 0 then "-" + Pad(HexDigits(-idx, upper), 3) else Pad(HexDigits(idx, upper), 4)
  }

  predicate IsHex(c: char) {
    '0' <= c <= '9' || 'A' <= c <= 'F' || 'a' <= c <= 'f'
  }

  function HexValue(c: char): nat
    requires IsHex(c)
  {
    if '0' <= c <= '9' then c as int - '0' as int
    else if 'A' <= c <= 'F' then c as int - 'A' as int + 10
    else c as int - 'a' as int + 10
  }

  /** ^Boot([0-9A-Fa-f]{4})$ */
  predicate IsBootName(name: string) {
    |name| == 8 && name[..4] == "Boot" && forall i :: 4 <= i < 8 ==> IsHex(name[i])
  }

  function IndexOf(name: string): (idx: nat)
    requires IsBootName(name)
    ensures idx < 0x1_0000
  {
    0x1000 * HexValue(name[4]) + 0x100 * HexValue(name[5]) + 0x10 * HexValue(name[6]) + HexValue(name[7])
  }

  lemma PadStep(n: nat, upper: bool, k: nat)
    requires k > 0
    ensures Pad(HexDigits(n, upper), k + 1) == Pad(HexDigits(n / 16, upper), k) + [HexDigit(n % 16, upper)]
  {
  }

  lemma FourDigits(n: nat, upper: bool)
    requires n < 0x1_0000
    ensures Pad(HexDigits(n, upper), 4) ==
      [HexDigit(n / 0x1000, upper), HexDigit(n / 0x100 % 16, upper), HexDigit(n / 0x10 % 16, upper), HexDigit(n % 16, upper)]
  {
    hide HexDigit, Pad;
    PadStep(n, upper, 3);
    PadStep(n / 16, upper, 2);
    PadStep(n / 0x100, upper, 1);
    assert n / 16 / 16 == n / 0x100 && n / 0x100 / 16 == n / 0x1000;
    SingleDigit(n / 0x1000, upper);
  }

  lemma SingleDigit(d: nat, upper: bool)
    requires d < 16
    ensures Pad(HexDigits(d, upper), 1) == [HexDigit(d, upper)]
  {
  }

  lemma NibbleSum(n: nat)
    requires n < 0x1_0000
    ensures 0x1000 * (n / 0x1000) + 0x100 * (n / 0x100 % 16) + 0x10 * (n / 0x10 % 16) + n % 16 == n
  {
    var a, b, c := n / 0x10, n / 0x100, n / 0x1000;
    assert n == 0x10 * a + n % 16;
    assert a / 16 == b && b / 16 == c && c < 16;
    assert a == 16 * b + a % 16 && b == 16 * c + b % 16;
  }

  lemma HexDigitValue(d: nat, upper: bool)
    requires d < 16
    ensures IsHex(HexDigit(d, upper)) && HexValue(HexDigit(d, upper)) == d
  {
  }

  /** Both spellings of an index are boot names of that index. */
  lemma NameIndex(n: nat, upper: bool)
    requires n < 0x1_0000
    ensures IsBootName(Name(n, upper)) && IndexOf(Name(n, upper)) == n
  {
    hide HexDigits, Pad, HexDigit, HexValue, IsHex;
    FourDigits(n, upper);
    NibbleSum(n);
    HexDigitValue(n / 0x1000, upper);
    HexDigitValue(n / 0x100 % 16, upper);
    HexDigitValue(n / 0x10 % 16, upper);
    HexDigitValue(n % 16, upper);
  }

  const UPPER_DIGITS := "0123456789ABCDEF"
  const LOWER_DIGITS := "0123456789abcdef"

  lemma DigitSpelling(d: nat)
    requires d < 16
    ensures HexDigit(d, true) == UPPER_DIGITS[d] && HexDigit(d, false) == LOWER_DIGITS[d]
  {
  }

  /** The two spellings of an index are "Boot" and its four digits from the digit tables. */
  lemma NameSpelling(n: nat)
    requires n < 0x1_0000
    ensures var a, b, c, d := n / 0x1000, n / 0x100 % 16, n / 0x10 % 16, n % 16;
      && Name(n, true) == "Boot" + [UPPER_DIGITS[a], UPPER_DIGITS[b], UPPER_DIGITS[c], UPPER_DIGITS[d]]
      && Name(n, false) == "Boot" + [LOWER_DIGITS[a], LOWER_DIGITS[b], LOWER_DIGITS[c], LOWER_DIGITS[d]]
  {
    hide HexDigits, Pad, HexDigit;
    FourDigits(n, true);
    FourDigits(n, false);
    DigitSpelling(n / 0x1000);
    DigitSpelling(n / 0x100 % 16);
    DigitSpelling(n / 0x10 % 16);
    DigitSpelling(n % 16);
  }

  /** A digit of either table, with its value. */
  predicate DigitIs(c: char, d: nat) {
    d < 16 && (c == UPPER_DIGITS[d] || c == LOWER_DIGITS[d])
  }

  lemma HexValueMeaning(c: char)
    ensures IsHex(c) <==> exists d :: DigitIs(c, d)
    ensures IsHex(c) ==> DigitIs(c, HexValue(c))
  {
    if d :| DigitIs(c, d) {
      DigitSpelling(d);
    }
    if IsHex(c) {
      DigitSpelling(HexValue(c));
      assert DigitIs(c, HexValue(c));
    }
  }

  lemma FourNibbles(a: nat, b: nat, c: nat, d: nat)
    requires a < 16 && b < 16 && c < 16 && d < 16
    ensures var n := 0x1000 * a + 0x100 * b + 0x10 * c + d;
      n / 0x1000 == a && n / 0x100 % 16 == b && n / 0x10 % 16 == c && n % 16 == d
  {
    var n := 0x1000 * a + 0x100 * b + 0x10 * c + d;
    assert n / 0x10 == 0x100 * a + 0x10 * b + c;
    assert n / 0x100 == 0x10 * a + b;
    assert n / 0x1000 == a;
  }

  /** The boot names are "Boot" and four digits of either table, and those are the digits of the index. */
  lemma IndexSpelling(name: string)
    ensures IsBootName(name) <==>
      |name| == 8 && name[..4] == "Boot" && forall i :: 4 <= i < 8 ==> exists d :: DigitIs(name[i], d)
    ensures IsBootName(name) ==>
      var n := IndexOf(name);
      && DigitIs(name[4], n / 0x1000) && DigitIs(name[5], n / 0x100 % 16)
      && DigitIs(name[6], n / 0x10 % 16) && DigitIs(name[7], n % 16)
  {
    hide HexValue, IsHex, DigitIs, IndexOf;
    forall c
      ensures IsHex(c) <==> exists d :: DigitIs(c, d)
    {
      HexValueMeaning(c);
    }
    if IsBootName(name) {
      IndexDigits(name);
    }
  }

  lemma IndexDigits(name: string)
    requires IsBootName(name)
    ensures var n := IndexOf(name);
      && DigitIs(name[4], n / 0x1000) && DigitIs(name[5], n / 0x100 % 16)
      && DigitIs(name[6], n / 0x10 % 16) && DigitIs(name[7], n % 16)
  {
    hide HexValue, IsHex, DigitIs;
    HexValueMeaning(name[4]);
    HexValueMeaning(name[5]);
    HexValueMeaning(name[6]);
    HexValueMeaning(name[7]);
    HexValueIsDigit(name[4], name[5], name[6], name[7]);
    FourNibbles(HexValue(name[4]), HexValue(name[5]), HexValue(name[6]), HexValue(name[7]));
  }

  lemma HexValueIsDigit(a: char, b: char, c: char, d: char)
    requires IsHex(a) && IsHex(b) && IsHex(c) && IsHex(d)
    ensures HexValue(a) < 16 && HexValue(b) < 16 && HexValue(c) < 16 && HexValue(d) < 16
  {
  }

  /** The scope of the boot variables in its usual notation, without the dashes. */
  lemma GlobalScope()
    ensures var text := "8be4df6193ca11d2aa0d00e098032b8c";
      forall i :: 0 <= i < 16 ==> text[2 * i] == LOWER_DIGITS[GLOBAL[i] / 16] && text[2 * i + 1] == LOWER_DIGITS[GLOBAL[i] % 16]
  {
  }

  // ---------------------------------------------------------------- entries

  datatype EntryError = NotExist | Malformed(error: OptionError)

  /** The upper-case spelling, then the lower-case one. */
  function GetEntry(vars: Variables, idx: int): Result<LoadOption, EntryError> {
    var raw := if Name(idx, true) in vars then Get(vars, Name(idx, true)) else Get(vars, Name(idx, false));
    if raw.None? then Err(NotExist)
    else
      var e := ParseOption(raw.value.data);
      if e.Ok? then Ok(e.value) else Err(Malformed(e.error))
  }

  function BootIndices(vars: Variables): (indices: set<nat>)
    ensures forall i :: i in indices ==> i < 0x1_0000
  {
    set n | n in vars.Keys && IsBootName(n) :: IndexOf(n)
  }

  predicate AllReadable(vars: Variables) {
    forall i :: i in BootIndices(vars) ==> GetEntry(vars, i).Ok?
  }

  function Entries(vars: Variables): map<nat, LoadOption>
    requires AllReadable(vars)
  {
    map i | i in BootIndices(vars) :: GetEntry(vars, i).value
  }

  /** What reading an entry finds in the variable of that name. */
  predicate Found(r: Result<LoadOption, EntryError>, v: Variable) {
    match ParseOption(v.data)
    case Ok(e) => r == Ok(e)
    case Err(error) => r == Err(Malformed(error))
  }

  method GetBootEntry(rw: Mock, idx: int) returns (r: Result<LoadOption, EntryError>)
    ensures r == GetEntry(rw.In(GLOBAL), idx)
    ensures var vars := rw.In(GLOBAL);
      && (Name(idx, true) in vars ==> Found(r, vars[Name(idx, true)]))
      && (Name(idx, true) !in vars && Name(idx, false) in vars ==> Found(r, vars[Name(idx, false)]))
      && (r == Err(NotExist) <==> Name(idx, true) !in vars && Name(idx, false) !in vars)
  {
    var raw := rw.Read(GLOBAL, Name(idx, true));
    if raw.None? {
      raw := rw.Read(GLOBAL, Name(idx, false));
    }
    if raw.None? {
      return Err(NotExist);
    }
    var e := UnmarshalLoadOption(raw.value.data);
    return if e.Ok? then Ok(e.value) else Err(Malformed(e.error));
  }

  /** The variable that is read for an index: the upper-case spelling before the lower-case one. */
  predicate Source(vars: Variables, idx: int, name: string) {
    && name in vars
    && (name == Name(idx, true) || (name == Name(idx, false) && Name(idx, true) !in vars))
  }

  /** What a listing is: an index for every boot name, each read from one of its two spellings. */
  lemma ListingMeaning(vars: Variables)
    ensures AllReadable(vars) <==>
      forall n :: n in vars && IsBootName(n) ==>
        exists name :: Source(vars, IndexOf(n), name) && ParseOption(vars[name].data).Ok?
    ensures AllReadable(vars) ==>
      && (forall i :: i in Entries(vars) <==> exists n :: n in vars && IsBootName(n) && IndexOf(n) == i)
      && (forall i, name :: i in Entries(vars) && Source(vars, i, name) ==> ParseOption(vars[name].data) == Ok(Entries(vars)[i]))
  {
    hide ParseOption, IsBootName, IndexOf, Name;
    forall i: nat
      ensures GetEntry(vars, i).Ok? <==> exists name :: Source(vars, i, name) && ParseOption(vars[name].data).Ok?
    {
      OneSource(vars, i);
    }
    hide GetEntry, Source;
    forall n | n in vars && IsBootName(n)
      ensures IndexOf(n) in BootIndices(vars)
    {
      assert n in vars.Keys;
    }
    if AllReadable(vars) {
      forall i: nat, name | i in Entries(vars) && Source(vars, i, name)
        ensures ParseOption(vars[name].data) == Ok(Entries(vars)[i])
      {
        OneSource(vars, i);
      }
    }
  }

  lemma OneSource(vars: Variables, i: int)
    ensures forall name :: Source(vars, i, name) ==> Found(GetEntry(vars, i), vars[name])
    ensures GetEntry(vars, i).Ok? <==> exists name :: Source(vars, i, name) && ParseOption(vars[name].data).Ok?
  {
    hide ParseOption, Name;
    assert Name(i, true) in vars ==> Source(vars, i, Name(i, true));
    assert Name(i, true) !in vars && Name(i, false) in vars ==> Source(vars, i, Name(i, false));
  }

  /** A variable spelled in lower case alone is listed under its index. */
  lemma LowerCaseListed(vars: Variables, idx: nat)
    requires idx < 0x1_0000 && Name(idx, false) in vars && Name(idx, true) !in vars
    ensures AllReadable(vars) ==>
      idx in Entries(vars) && ParseOption(vars[Name(idx, false)].data) == Ok(Entries(vars)[idx])
    ensures vars.Keys == {Name(idx, false)} && ParseOption(vars[Name(idx, false)].data).Ok? ==> AllReadable(vars)
  {
    hide ParseOption, IsBootName, IndexOf, Name, Entries, AllReadable;
    NameIndex(idx, false);
    ListingMeaning(vars);
    assert Source(vars, idx, Name(idx, false));
  }

  /** One unreadable boot variable, or one of mixed case, fails the whole listing. */
  method ListBootEntries(rw: Mock) returns (r: Result<map<nat, LoadOption>, EntryError>)
    ensures r.Ok? <==> AllReadable(rw.In(GLOBAL))
    ensures r.Ok? ==> r.value == Entries(rw.In(GLOBAL))
    ensures r.Err? ==> exists i :: i in BootIndices(rw.In(GLOBAL)) && GetEntry(rw.In(GLOBAL), i) == Err(r.error)
    // which indices, and what is listed under each
    ensures var vars := rw.In(GLOBAL); r.Ok? <==>
      forall n :: n in vars && IsBootName(n) ==>
        exists name :: Source(vars, IndexOf(n), name) && ParseOption(vars[name].data).Ok?
    ensures var vars := rw.In(GLOBAL); r.Ok? ==>
      && (forall i :: i in r.value <==> exists n :: n in vars && IsBootName(n) && IndexOf(n) == i)
      && (forall i, name :: i in r.value && Source(vars, i, name) ==> ParseOption(vars[name].data) == Ok(r.value[i]))
  {
    hide GetEntry, IndexOf, IsBootName, Source, ParseOption;
    ghost var vars := rw.In(GLOBAL);
    ListingMeaning(vars);
    var bootEntries: map<nat, LoadOption> := map[];
    var names := rw.List(GLOBAL);
    for k := 0 to |names|
      invariant forall i :: i in bootEntries ==> i in BootIndices(vars) && GetEntry(vars, i) == Ok(bootEntries[i])
      invariant forall j :: 0 <= j < k && IsBootName(names[j]) ==> IndexOf(names[j]) in bootEntries
    {
      if !IsBootName(names[k]) {
        continue;
      }
      var idx := IndexOf(names[k]);
      assert names[k] in names && idx in BootIndices(vars);
      var entry := GetBootEntry(rw, idx);
      if entry.Err? {
        return Err(entry.error);
      }
      bootEntries := bootEntries[idx := entry.value];
    }
    forall i | i in BootIndices(vars)
      ensures i in bootEntries
    {
      var n :| n in vars.Keys && IsBootName(n) && IndexOf(n) == i;
      assert n in names;
    }
    return Ok(bootEntries);
  }

  /** A boot variable whose index has neither of the two spellings in the store fails the whole
      listing; beside one of them it is only another name of that entry. */
  lemma MixedCase(vars: Variables, name: string)
    requires name in vars && IsBootName(name)
    ensures Name(IndexOf(name), true) !in vars && Name(IndexOf(name), false) !in vars ==> !AllReadable(vars)
    ensures Name(IndexOf(name), true) in vars || Name(IndexOf(name), false) in vars ==>
      BootIndices(vars - ({name} - {Name(IndexOf(name), true), Name(IndexOf(name), false)})) == BootIndices(vars)
  {
    hide Name, IndexOf;
    var idx := IndexOf(name);
    assert name in vars.Keys && idx in BootIndices(vars);
    NameIndex(idx, true);
    NameIndex(idx, false);
    var twins := {Name(idx, true), Name(idx, false)};
    var without := vars - ({name} - twins);
    forall i | (Name(idx, true) in vars || Name(idx, false) in vars) && i in BootIndices(vars)
      ensures i in BootIndices(without)
    {
      var n :| n in vars.Keys && IsBootName(n) && IndexOf(n) == i;
      var other := if n in without then n else if Name(idx, true) in vars then Name(idx, true) else Name(idx, false);
      assert other in without.Keys && IndexOf(other) == i;
    }
    assert without.Keys <= vars.Keys;
  }

  /** ... such as Boot00aB on its own, whatever it holds. */
  lemma MixedCaseAlone(v: Variable)
    ensures !AllReadable(map["Boot00aB" := v])
  {
    hide HexDigits, Pad, AllReadable;
    var name := "Boot00aB";
    FourDigits(0xAB, true);
    FourDigits(0xAB, false);
    assert IsBootName(name) && IndexOf(name) == 0xAB;
    assert Name(0xAB, true)[6] == 'A' && Name(0xAB, false)[7] == 'b';
    MixedCase(map[name := v], name);
  }

  /** The store after writing an entry, always under the upper-case name. */
  function WithEntry(vars: Variables, idx: int, be: LoadOption): Variables
    requires OptionBytes(be).Ok?
  {
    vars[Name(idx, true) := Variable(NON_VOLATILE + RUNTIME_ACCESS, OptionBytes(be).value)]
  }

  method SetBootEntry(rw: Mock, idx: int, be: LoadOption) returns (r: Option<OptionError>)
    modifies rw
    ensures r.None? <==> OptionBytes(be).Ok?
    ensures r.None? ==> rw.In(GLOBAL) == WithEntry(old(rw.In(GLOBAL)), idx, be)
    // non-volatile (1) and accessible at run time (4)
    ensures r.None? ==> rw.In(GLOBAL) == old(rw.In(GLOBAL))[Name(idx, true) := Variable(5, OptionBytes(be).value)]
    ensures r.Some? ==> r.value == OptionBytes(be).error && rw.In(GLOBAL) == old(rw.In(GLOBAL))
    ensures forall s :: s != GLOBAL ==> rw.In(s) == old(rw.In(s))
  {
    var bem := MarshalLoadOption(be);
    if bem.Err? {
      return Some(bem.error);
    }
    rw.Write(GLOBAL, Name(idx, true), NON_VOLATILE + RUNTIME_ACCESS, bem.value);
    return None;
  }

  datatype AddError = ListFailed(entry: EntryError) | AllOccupied | MarshalFailed(option: OptionError)

  /** The indices the allocator tries: 0xFFFF is never one of them. */
  const LIMIT: nat := 0xFFFF

  method FirstFree(entries: map<nat, LoadOption>) returns (idx: int)
    ensures idx == -1 <==> forall i: nat :: i < LIMIT ==> i in entries
    ensures idx != -1 ==> 0 <= idx < LIMIT && idx !in entries && forall i: nat :: i < idx ==> i in entries
  {
    idx := -1;
    for i := 0 to LIMIT
      invariant idx == -1 && forall j: nat :: j < i ==> j in entries
    {
      if i !in entries {
        idx := i;
        break;
      }
    }
  }

  method AddBootEntry(rw: Mock, be: LoadOption) returns (r: Result<nat, AddError>)
    modifies rw
    // which outcome
    ensures r.Err? && r.error.ListFailed? <==> !AllReadable(old(rw.In(GLOBAL)))
    ensures r == Err(AllOccupied) <==>
      AllReadable(old(rw.In(GLOBAL))) && forall i: nat :: i < 65535 ==> i in BootIndices(old(rw.In(GLOBAL)))
    ensures r.Ok? <==>
      && AllReadable(old(rw.In(GLOBAL)))
      && OptionBytes(be).Ok?
      && exists i: nat :: i < 65535 && i !in BootIndices(old(rw.In(GLOBAL)))
    ensures r.Err? && r.error.MarshalFailed? ==> OptionBytes(be) == Err(r.error.option)
    // a success takes the least free index, whose variable exists in neither spelling
    ensures r.Ok? ==> r.value < 65535 && r.value !in BootIndices(old(rw.In(GLOBAL)))
    ensures r.Ok? ==> forall i: nat :: i < r.value ==> i in BootIndices(old(rw.In(GLOBAL)))
    ensures r.Ok? ==> Name(r.value, true) !in old(rw.In(GLOBAL)) && Name(r.value, false) !in old(rw.In(GLOBAL))
    ensures r.Ok? ==> rw.In(GLOBAL) == WithEntry(old(rw.In(GLOBAL)), r.value, be)
    ensures r.Ok? ==>
      rw.In(GLOBAL) == old(rw.In(GLOBAL))[Name(r.value, true) := Variable(5, OptionBytes(be).value)]
    // a failure changes nothing, and no other scope is ever touched
    ensures r.Err? ==> rw.In(GLOBAL) == old(rw.In(GLOBAL))
    ensures forall s :: s != GLOBAL ==> rw.In(s) == old(rw.In(s))
  {
    hide OptionBytes, AllReadable, Name, GetEntry, ParseOption, WithEntry;
    var bootEntries := ListBootEntries(rw);
    if bootEntries.Err? {
      return Err(ListFailed(bootEntries.error));
    }
    var idx := FirstFree(bootEntries.value);
    assert bootEntries.value.Keys == BootIndices(rw.In(GLOBAL));
    if idx == -1 {
      return Err(AllOccupied);
    }
    FreeNames(rw.In(GLOBAL), idx);
    var failed := SetBootEntry(rw, idx, be);
    if failed.Some? {
      return Err(MarshalFailed(failed.value));
    }
    return Ok(idx);
  }

  lemma FreeNames(vars: Variables, idx: nat)
    requires idx < 0x1_0000 && idx !in BootIndices(vars)
    ensures Name(idx, true) !in vars && Name(idx, false) !in vars
  {
    NameIndex(idx, true);
    NameIndex(idx, false);
  }

  lemma IndicesAfterAdd(vars: Variables, idx: nat, v: Variable)
    requires idx < 0x1_0000
    ensures BootIndices(vars[Name(idx, true) := v]) == BootIndices(vars) + {idx}
  {
    hide Name, IsBootName, IndexOf;
    NameIndex(idx, true);
    var name := Name(idx, true);
    var after := vars[name := v];
    assert after.Keys == vars.Keys + {name};
    forall i | i in BootIndices(vars) + {idx}
      ensures i in BootIndices(after)
    {
      if i == idx {
        assert name in after.Keys;
      } else {
        var n :| n in vars.Keys && IsBootName(n) && IndexOf(n) == i;
        assert n in after.Keys;
      }
    }
  }

  lemma EntriesAfterAdd(vars: Variables, idx: nat, v: Variable, i: nat)
    requires idx < 0x1_0000 && i < 0x1_0000
    ensures i != idx ==> GetEntry(vars[Name(idx, true) := v], i) == GetEntry(vars, i)
    ensures var e := GetEntry(vars[Name(idx, true) := v], idx);
      if ParseOption(v.data).Ok? then e == Ok(ParseOption(v.data).value) else e.Err?
  {
    hide Name, IndexOf, ParseOption;
    NameIndex(idx, true);
    NameIndex(i, true);
    NameIndex(i, false);
  }

  /** Adding at a free index: the next listing succeeds exactly when the old one did and the
      new bytes parse, and then it is the old listing plus the new entry. */
  lemma ListAfterAdd(vars: Variables, idx: nat, v: Variable)
    requires idx < 0x1_0000 && idx !in BootIndices(vars)
    ensures var after := vars[Name(idx, true) := v];
      && (AllReadable(after) <==> AllReadable(vars) && ParseOption(v.data).Ok?)
      && (AllReadable(after) ==> Entries(after) == Entries(vars)[idx := ParseOption(v.data).value])
  {
    hide Name, GetEntry, ParseOption, BootIndices;
    var after := vars[Name(idx, true) := v];
    IndicesAfterAdd(vars, idx, v);
    forall i | i in BootIndices(vars) + {idx}
      ensures i != idx ==> GetEntry(after, i) == GetEntry(vars, i)
      ensures if ParseOption(v.data).Ok? then GetEntry(after, idx) == Ok(ParseOption(v.data).value)
              else GetEntry(after, idx).Err?
    {
      EntriesAfterAdd(vars, idx, v, i);
    }
    EntriesAfterAdd(vars, idx, v, idx);
  }

  /** The entry added is the entry listed, up to normalisation, exactly for faithful options. */
  lemma AddedIsListed(vars: Variables, idx: nat, be: LoadOption)
    requires idx < 0x1_0000 && idx !in BootIndices(vars) && AllReadable(vars) && OptionBytes(be).Ok?
    ensures var after := WithEntry(vars, idx, be);
      Faithful(be) <==> AllReadable(after) && Entries(after) == Entries(vars)[idx := NormaliseOption(be)]
  {
    hide ParseOption, OptionBytes, Faithful, AllReadable, Entries, BootIndices, Name, NormaliseOption;
    RoundTrip(be);
    ListAfterAdd(vars, idx, Variable(NON_VOLATILE + RUNTIME_ACCESS, OptionBytes(be).value));
    var parsed := ParseOption(OptionBytes(be).value);
    if parsed.Ok? {
      assert Entries(vars)[idx := parsed.value][idx] == parsed.value;
      assert Entries(vars)[idx := NormaliseOption(be)][idx] == NormaliseOption(be);
    }
  }

  method DeleteBootEntry(rw: Mock, idx: int) returns (existed: bool)
    modifies rw
    ensures var before := old(rw.In(GLOBAL));
      if Name(idx, true) in before then existed && rw.In(GLOBAL) == before - {Name(idx, true)}
      else existed == (Name(idx, false) in before) && rw.In(GLOBAL) == before - {Name(idx, false)}
    ensures forall s :: s != GLOBAL ==> rw.In(s) == old(rw.In(s))
  {
    existed := rw.Delete(GLOBAL, Name(idx, true));
    if !existed {
      existed := rw.Delete(GLOBAL, Name(idx, false));
    }
  }

  /** Deleting undoes adding. */
  method AddThenDelete(rw: Mock, be: LoadOption) returns (r: Result<nat, AddError>)
    modifies rw
    ensures forall s :: rw.In(s) == old(rw.In(s))
  {
    ghost var before := rw.In(GLOBAL);
    r := AddBootEntry(rw, be);
    if r.Ok? {
      var existed := DeleteBootEntry(rw, r.value);
      assert rw.In(GLOBAL) == before;
    }
  }

  // ---------------------------------------------------------------- boot order

  const BOOT_ORDER := "BootOrder"

  method SetBootOrder(rw: Mock, order: BootOrder)
    modifies rw
    ensures rw.In(GLOBAL) == old(rw.In(GLOBAL))["BootOrder" := Variable(5, Encode(order))]
    ensures forall s :: s != GLOBAL ==> rw.In(s) == old(rw.In(s))
    // the boot entries are not affected
    ensures BootIndices(rw.In(GLOBAL)) == BootIndices(old(rw.In(GLOBAL)))
  {
    var data := MarshalBootOrder(order);
    ghost var before := rw.In(GLOBAL);
    rw.Write(GLOBAL, BOOT_ORDER, NON_VOLATILE + RUNTIME_ACCESS, data);
    forall n | n in rw.In(GLOBAL).Keys && IsBootName(n)
      ensures n in before.Keys
    {
      assert n != BOOT_ORDER;
    }
  }

  datatype OrderError = OrderNotExist | BadLength

  method GetBootOrder(rw: Mock) returns (r: Result<BootOrder, OrderError>)
    ensures r == match Get(rw.In(GLOBAL), "BootOrder")
                 case None => Err(OrderNotExist)
                 case Some(v) => if ParseBootOrder(v.data).Some? then Ok(ParseBootOrder(v.data).value) else Err(BadLength)
  {
    var raw := rw.Read(GLOBAL, BOOT_ORDER);
    if raw.None? {
      return Err(OrderNotExist);
    }
    var order := UnmarshalBootOrder(raw.value.data);
    return if order.Some? then Ok(order.value) else Err(BadLength);
  }

  /** What is set is what is read. */
  method SetThenGet(rw: Mock, order: BootOrder) returns (r: Result<BootOrder, OrderError>)
    modifies rw
    ensures r == Ok(order)
  {
    SetBootOrder(rw, order);
    r := GetBootOrder(rw);
    BootOrderInverse(order, []);
  }
}
