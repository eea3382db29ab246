/** LUKS key-slot reconciliation: internal/pkg/encryption/encryption.go.

    A device header (occupied slots and per-slot tokens) is driven towards a list of
    key handlers. Every call to the device or to a handler may fail, and a failed
    header update may leave anything at all in the slot it was aimed at. The device
    records a snapshot of the header after each call, so that "at every moment of the
    run" can be said of a whole run, and counts the failures, so that a run without
    any can be told apart. */
module KeySlots {
  import opened Wrappers
  import opened Decimal

  type Slot = n: int | MIN_INT64 <= n <= MAX_INT64

  type Bytes = seq<bv8>

  datatype Key = Key(slot: Slot, value: Bytes)

  datatype TokenKind = Kms | Tpm

  /** What the token of a slot holds. A sealed blob can be opened only by the service
      that sealed it; Foreign is a token of a type this program does not know. */
  datatype Token = Sealed(kind: TokenKind, sealer: int, plain: Bytes) | Foreign

  datatype Header = Header(slots: map<Slot, Bytes>, tokens: map<Slot, Token>)

  // ---------------------------------------------------------------- handlers

  /** Static and node-ID handlers compute their key; KMS and TPM handlers generate one
      and keep it sealed in the token. A salted handler appends its salt to either. */
  datatype Handler =
    | Derived(slot: Slot, secret: Bytes, salt: Bytes)
    | Sealing(slot: Slot, kind: TokenKind, sealer: int, salt: Bytes)

  datatype GetKeyResult = GotKey(key: Key) | TokenInvalid | KeyUnavailable

  /** The key a handler gives back for a token when nothing fails. */
  function Yields(h: Handler, token: Option<Token>): Option<Key> {
    match h
    case Derived(slot, secret, salt) => Some(Key(slot, secret + salt))
    case Sealing(slot, kind, sealer, salt) =>
      if token.Some? && token.value.Sealed? && token.value.kind == kind && token.value.sealer == sealer
      then Some(Key(slot, token.value.plain + salt))
      else None
  }

  /** What GetKey says when nothing fails. */
  function Answer(h: Handler, token: Option<Token>): GetKeyResult {
    if h.Sealing? && (token.None? || token.value.Foreign? || token.value.kind != h.kind) then TokenInvalid
    else if Yields(h, token).None? then KeyUnavailable
    else GotKey(Yields(h, token).value)
  }

  // ---------------------------------------------------------------- header predicates

  predicate Holds(hd: Header, k: Key) {
    k.slot in hd.slots && hd.slots[k.slot] == k.value
  }

  datatype SlotState = SlotState(key: Option<Bytes>, token: Option<Token>)

  function At(hd: Header, slot: Slot): SlotState {
    SlotState(
      if slot in hd.slots then Some(hd.slots[slot]) else None,
      if slot in hd.tokens then Some(hd.tokens[slot]) else None)
  }

  /** The two headers agree everywhere except possibly at the given slots. */
  ghost predicate AgreeOutside(a: Header, b: Header, slots: set<Slot>) {
    forall s :: s !in slots ==> At(a, s) == At(b, s)
  }

  /** The slot of `h` holds the key that `h` makes of that slot's token. */
  predicate InSync(h: Handler, hd: Header) {
    var state := At(hd, h.slot);
    state.key.Some? && Yields(h, state.token) == Some(Key(h.slot, state.key.value))
  }

  /** What stands in a slot keeps its handler from ever using or replacing it: a token of an
      unknown type, or a blob of the handler's kind that another service sealed. */
  predicate Blocked(h: Handler, hd: Header) {
    var token := At(hd, h.slot).token;
    token == Some(Foreign) || Answer(h, token).KeyUnavailable?
  }

  /** The volume can be unlocked through `h`: the token can be read, and gives the slot's key. */
  predicate Openable(h: Handler, hd: Header) {
    InSync(h, hd) && !Blocked(h, hd)
  }

  /** Exactly `base` and then exactly `salt`. */
  predicate Salted(value: Bytes, base: Bytes, salt: Bytes) {
    |value| == |base| + |salt| && value[..|base|] == base && value[|base|..] == salt
  }

  /** What must stand in the slot of `h`, spelled out: the secret or the token's plain text,
      salted; and a token that can be read, of the handler's kind and service if it seals. */
  predicate KeyStands(h: Handler, key: Bytes, token: Option<Token>) {
    match h
    case Derived(_, secret, salt) => token != Some(Foreign) && Salted(key, secret, salt)
    case Sealing(_, kind, sealer, salt) =>
      && token.Some? && token.value.Sealed? && token.value.kind == kind && token.value.sealer == sealer
      && Salted(key, token.value.plain, salt)
  }

  lemma OpenableMeaning(h: Handler, hd: Header)
    ensures Openable(h, hd) <==>
      && h.slot in hd.slots
      && KeyStands(h, hd.slots[h.slot], if h.slot in hd.tokens then Some(hd.tokens[h.slot]) else None)
  {
    if h.slot in hd.slots {
      var key, token := hd.slots[h.slot], At(hd, h.slot).token;
      var base := if h.Derived? then h.secret else if token.Some? && token.value.Sealed? then token.value.plain else [];
      assert Salted(key, base, h.salt) <==> key == base + h.salt;
    }
  }

  /** A slot is blocked by a token of an unknown type, and else only by a blob of the handler's
      own kind from another service. */
  lemma BlockedMeaning(h: Handler, hd: Header)
    ensures Blocked(h, hd) <==>
      && h.slot in hd.tokens
      && var token := hd.tokens[h.slot];
         token.Foreign? || (h.Sealing? && token.kind == h.kind && token.sealer != h.sealer)
  {
  }

  /** An unknown token in an empty slot: adding a key without a token of its own leaves it there. */
  predicate LeftBehind(h: Handler, hd: Header) {
    h.Derived? && h.slot !in hd.slots && At(hd, h.slot).token == Some(Foreign)
  }

  predicate DistinctSlots(hs: seq<Handler>) {
    forall i, j :: 0 <= i < j < |hs| ==> hs[i].slot != hs[j].slot
  }

  /** The state the reconciliation aims at: the occupied slots are the handlers' slots,
      and every handler can unlock the volume. */
  ghost predicate AllSynced(hs: seq<Handler>, hd: Header) {
    && (forall i :: 0 <= i < |hs| ==> Openable(hs[i], hd))
    && hd.slots.Keys == HandlerSlots(hs)
  }

  /** What a reconciliation can bring into sync. */
  predicate Repairable(h: Handler, hd: Header) {
    if h.slot in hd.slots then !Blocked(h, hd) else !LeftBehind(h, hd)
  }

  lemma RepairableMeaning(h: Handler, hd: Header)
    ensures Repairable(h, hd) <==>
      (h.slot in hd.tokens ==>
        var token := hd.tokens[h.slot];
        if h.slot !in hd.slots then h.Derived? ==> !token.Foreign?
        else !token.Foreign? && (h.Sealing? && token.kind == h.kind ==> token.sealer == h.sealer))
  {
  }

  predicate AllRepairable(hs: seq<Handler>, hd: Header) {
    forall i :: 0 <= i < |hs| ==> Repairable(hs[i], hd)
  }

  // ---------------------------------------------------------------- device

  datatype CloseResult = WasClosed | NotReady | CloseFailed

  datatype TokenRead = Found(token: Token) | NotFound | ReadFailed

  class Device {
    var header: Header
    /** Whether the mapped volume is open. */
    var open: bool
    ghost var log: seq<Header>
    /** How many calls, of the device or of a handler, have failed. */
    ghost var faults: nat

    constructor (hd: Header)
      ensures header == hd && !open && log == [] && faults == 0
    {
      header, open, log, faults := hd, false, [], 0;
    }

    // What all the snapshots taken since `from` have in common with a header.
    ghost predicate SinceAgreeAt(from: nat, hd: Header, slot: Slot)
      reads this
    {
      forall i :: from <= i < |log| ==> At(hd, slot) == At(log[i], slot)
    }

    ghost predicate SinceAgreeOutside(from: nat, hd: Header, slots: set<Slot>)
      reads this
    {
      forall i :: from <= i < |log| ==> AgreeOutside(hd, log[i], slots)
    }

    /** `h` can unlock the volume now, and could after every call since `from`. */
    ghost predicate KeepsUnlocking(from: nat, h: Handler)
      reads this
    {
      Openable(h, header) && forall i :: from <= i < |log| ==> Openable(h, log[i])
    }

    ghost predicate SinceEqual(from: nat, hd: Header)
      reads this
    {
      forall i :: from <= i < |log| ==> log[i] == hd
    }

    /** The provider names slots in canonical decimal. */
    method ReadKeyslots() returns (names: Option<set<string>>)
      modifies `header, `log, `faults
      ensures header == old(header) && log == old(log) + [header]
      ensures names.Some? ==> names.value == Names(header.slots.Keys)
      ensures faults == old(faults) + if names.None? then 1 else 0
    {
      log := log + [header];
      var fails: bool := *;
      if fails {
        faults := faults + 1;
        return None;
      }
      return Some(Names(header.slots.Keys));
    }

    method ReadToken(id: Slot) returns (r: TokenRead)
      modifies `header, `log, `faults
      ensures header == old(header) && log == old(log) + [header]
      ensures r.Found? ==> At(header, id).token == Some(r.token)
      ensures r.NotFound? ==> At(header, id).token == None
      ensures faults == old(faults) + if r.ReadFailed? then 1 else 0
    {
      log := log + [header];
      var fails: bool := *;
      if fails {
        faults := faults + 1;
        return ReadFailed;
      }
      return if id in header.tokens then Found(header.tokens[id]) else NotFound;
    }

    /** A failed update of one slot: that slot may hold anything afterwards. */
    method Tear(slot: Slot)
      modifies `header, `log
      ensures AgreeOutside(old(header), header, {slot}) && log == old(log) + [header]
    {
      var key: Option<Bytes>, token: Option<Token> := *, *;
      var slots := if key.Some? then header.slots[slot := key.value] else header.slots - {slot};
      var tokens := if token.Some? then header.tokens[slot := token.value] else header.tokens - {slot};
      header := Header(slots, tokens);
      log := log + [header];
    }

    method SetToken(id: Slot, token: Token) returns (ok: bool)
      modifies `header, `log, `faults
      ensures log == old(log) + [header]
      ensures ok ==> header == old(header).(tokens := old(header).tokens[id := token])
      ensures !ok ==> AgreeOutside(old(header), header, {id})
      ensures faults == old(faults) + if ok then 0 else 1
    {
      ok := *;
      if ok {
        header := header.(tokens := header.tokens[id := token]);
        log := log + [header];
      } else {
        faults := faults + 1;
        Tear(id);
      }
    }

    /** Adding a key is authorised by an existing one. */
    method AddKey(existing: Key, key: Key) returns (ok: bool)
      modifies `header, `log, `faults
      ensures log == old(log) + [header]
      ensures ok ==> Holds(old(header), existing)
      ensures ok ==> header == old(header).(slots := old(header).slots[key.slot := key.value])
      ensures !ok ==> AgreeOutside(old(header), header, {key.slot})
      ensures faults == old(faults) || (!ok && faults == old(faults) + 1)
      ensures faults == old(faults) ==> (ok <==> Holds(old(header), existing))
    {
      ok := *;
      faults := faults + if ok then 0 else 1;
      ok := ok && Holds(header, existing);
      if ok {
        header := header.(slots := header.slots[key.slot := key.value]);
        log := log + [header];
      } else {
        Tear(key.slot);
      }
    }

    /** Removing a key empties the slot; its token is kept or dropped. */
    method RemoveKey(slot: Slot, existing: Key) returns (ok: bool)
      modifies `header, `log, `faults
      ensures log == old(log) + [header]
      ensures AgreeOutside(old(header), header, {slot})
      ensures ok ==> Holds(old(header), existing) && slot !in header.slots
      ensures ok ==> At(header, slot).token in {None, At(old(header), slot).token}
      ensures faults == old(faults) || (!ok && faults == old(faults) + 1)
      ensures faults == old(faults) ==> (ok <==> Holds(old(header), existing))
    {
      ok := *;
      faults := faults + if ok then 0 else 1;
      ok := ok && Holds(header, existing);
      if ok {
        var keeps: bool := *;
        header := Header(header.slots - {slot}, if keeps then header.tokens else header.tokens - {slot});
        log := log + [header];
      } else {
        Tear(slot);
      }
    }

    method CheckKey(key: Key) returns (valid: Option<bool>)
      modifies `header, `log, `faults
      ensures header == old(header) && log == old(log) + [header]
      ensures valid.Some? ==> valid.value == Holds(header, key)
      ensures faults == old(faults) + if valid.None? then 1 else 0
    {
      log := log + [header];
      var fails: bool := *;
      faults := faults + if fails then 1 else 0;
      return if fails then None else Some(Holds(header, key));
    }

    method IsOpen() returns (r: Option<bool>)
      modifies `log, `faults
      ensures log == old(log) + [header]
      ensures r.Some? ==> r.value == open
      ensures faults == old(faults) + if r.None? then 1 else 0
    {
      log := log + [header];
      var fails: bool := *;
      faults := faults + if fails then 1 else 0;
      return if fails then None else Some(open);
    }

    method Unlock(key: Key) returns (ok: bool)
      requires !open
      modifies `open, `log, `faults
      ensures log == old(log) + [header] && open == ok
      ensures ok ==> Holds(header, key)
      ensures faults == old(faults) || (!ok && faults == old(faults) + 1)
      ensures faults == old(faults) ==> (ok <==> Holds(header, key))
    {
      log := log + [header];
      ok := *;
      faults := faults + if ok then 0 else 1;
      ok := ok && Holds(header, key);
      open := ok;
    }

    method CloseMapped() returns (r: CloseResult)
      modifies `open, `log, `faults
      ensures log == old(log) + [header]
      ensures r.NotReady? ==> !old(open)
      ensures open == (old(open) && r.CloseFailed?)
      ensures faults == old(faults) + if r.CloseFailed? then 1 else 0
    {
      log := log + [header];
      var fails: bool := *;
      if fails {
        faults := faults + 1;
        return CloseFailed;
      }
      r := if open then WasClosed else NotReady;
      open := false;
    }

    /** Formatting: a success leaves one slot and no token, a failure leaves anything. */
    method Encrypt(key: Key) returns (ok: bool)
      modifies `header, `log, `faults
      ensures log == old(log) + [header]
      ensures ok ==> header == Header(map[key.slot := key.value], map[])
      ensures faults == old(faults) + if ok then 0 else 1
    {
      ok := *;
      if ok {
        header := Header(map[key.slot := key.value], map[]);
      } else {
        faults := faults + 1;
        var slots: map<Slot, Bytes>, tokens: map<Slot, Token> := *, *;
        header := Header(slots, tokens);
      }
      log := log + [header];
    }
  }

  // ---------------------------------------------------------------- handler calls

  /** The device counts the failures of the handlers too. */
  method GetKey(dev: Device, h: Handler, token: Option<Token>) returns (r: GetKeyResult)
    modifies dev`faults
    ensures old(dev.faults) <= dev.faults
    ensures if dev.faults == old(dev.faults) then r == Answer(h, token) else r == KeyUnavailable
    // the key, spelled out
    ensures r.GotKey? ==> r.key.slot == h.slot && (token != Some(Foreign) ==> KeyStands(h, r.key.value, token))
    ensures r.GotKey? && h.Derived? ==> Salted(r.key.value, h.secret, h.salt)
    // a sealing handler refuses a token of another kind, and fails on a blob of another service
    ensures r.TokenInvalid? <==> h.Sealing? && (token.None? || token.value.Foreign? || token.value.kind != h.kind)
    ensures h.Sealing? && token.Some? && token.value.Sealed? && token.value.sealer != h.sealer ==> !r.GotKey?
    ensures dev.faults == old(dev.faults) ==>
      (h.Derived? || (token.Some? && token.value.Sealed? && token.value.kind == h.kind && token.value.sealer == h.sealer)) ==>
      r.GotKey?
  {
    var fails: bool := *;
    if h.Sealing? && (token.None? || token.value.Foreign? || token.value.kind != h.kind) {
      return TokenInvalid;
    }
    if fails {
      dev.faults := dev.faults + 1;
      return KeyUnavailable;
    }
    var key := Yields(h, token);
    return if key.None? then KeyUnavailable else GotKey(key.value);
  }

  /** A new key, and a token when the handler needs one to find that key again. */
  method NewKey(dev: Device, h: Handler) returns (r: Option<(Key, Option<Token>)>)
    modifies dev`faults
    ensures r.Some? ==> r.value.0.slot == h.slot
    ensures r.Some? && r.value.1.Some? ==> Yields(h, r.value.1) == Some(r.value.0)
    ensures r.Some? && r.value.1.None? ==> forall token :: Yields(h, token) == Some(r.value.0)
    ensures r.Some? ==> (r.value.1.None? <==> h.Derived?) && r.value.1 != Some(Foreign)
    // the key, spelled out
    ensures r.Some? ==> KeyStands(h, r.value.0.value, r.value.1)
    ensures dev.faults == old(dev.faults) + if r.None? then 1 else 0
  {
    var fails: bool := *;
    if fails {
      dev.faults := dev.faults + 1;
      return None;
    }
    match h
    case Derived(slot, secret, salt) =>
      return Some((Key(slot, secret + salt), None));
    case Sealing(slot, kind, sealer, salt) =>
      var random: Bytes := *;
      return Some((Key(slot, random + salt), Some(Sealed(kind, sealer, random))));
  }

  // ---------------------------------------------------------------- reconciliation

  datatype TokenResult = Usable(token: Option<Token>) | TokenError

  method ReadHandlerToken(dev: Device, slot: Slot) returns (r: TokenResult)
    modifies dev`header, dev`log, dev`faults
    ensures dev.header == old(dev.header) && dev.log == old(dev.log) + [dev.header]
    ensures r.Usable? ==> r.token == At(dev.header, slot).token
    ensures old(dev.faults) <= dev.faults
    ensures r.TokenError? <==> At(dev.header, slot).token == Some(Foreign) || dev.faults > old(dev.faults)
  {
    var t := dev.ReadToken(slot);
    match t
    case NotFound => return Usable(None);
    case ReadFailed => return TokenError;
    case Found(token) =>
      // a sealed blob may also fail to decode; an unknown type always does
      var fails: bool := *;
      if !token.Foreign? && fails {
        dev.faults := dev.faults + 1;
        return TokenError;
      }
      return if token.Foreign? then TokenError else Usable(Some(token));
  }

  /** None is an error; Some(true) means the slot needs no change. */
  method CheckHandlerKey(dev: Device, h: Handler) returns (r: Option<bool>)
    modifies dev`header, dev`log, dev`faults
    ensures dev.header == old(dev.header)
    ensures old(dev.log) <= dev.log && dev.SinceEqual(old(|dev.log|), dev.header)
    ensures r == Some(true) ==> Openable(h, dev.header)
    ensures r == Some(false) ==> !InSync(h, dev.header)
    ensures old(dev.faults) <= dev.faults
    ensures r.None? <==> Blocked(h, dev.header) || dev.faults > old(dev.faults)
  {
    var t := ReadHandlerToken(dev, h.slot);
    if t.TokenError? {
      return None;
    }
    var k := GetKey(dev, h, t.token);
    match k
    case TokenInvalid => return Some(false);
    case KeyUnavailable => return None;
    case GotKey(key) =>
      r := dev.CheckKey(key);
  }

  method AddHandlerKey(dev: Device, existing: Key, h: Handler) returns (ok: bool)
    modifies dev`header, dev`log, dev`faults
    ensures old(dev.log) <= dev.log && dev.SinceAgreeOutside(old(|dev.log|), old(dev.header), {h.slot})
    ensures AgreeOutside(old(dev.header), dev.header, {h.slot})
    // a new key is usable, unless it needs no token and the one in its slot cannot be read
    ensures ok ==> InSync(h, dev.header)
    ensures ok ==> (Blocked(h, dev.header) <==> h.Derived? && At(old(dev.header), h.slot).token == Some(Foreign))
    // it only fails if a call does, or the existing key is not there
    ensures old(dev.faults) <= dev.faults
    ensures dev.faults == old(dev.faults) && Holds(old(dev.header), existing) && existing.slot != h.slot ==> ok
  {
    var created := NewKey(dev, h);
    if created.None? {
      return false;
    }
    var (key, token) := created.value;
    if token.Some? {
      ok := dev.SetToken(key.slot, token.value);
      if !ok {
        return false;
      }
    }
    ok := dev.AddKey(existing, key);
  }

  method UpdateKey(dev: Device, existing: Key, h: Handler) returns (ok: bool)
    modifies dev`header, dev`log, dev`faults
    ensures old(dev.log) <= dev.log && dev.SinceAgreeOutside(old(|dev.log|), old(dev.header), {h.slot})
    ensures AgreeOutside(old(dev.header), dev.header, {h.slot})
    ensures ok ==> Openable(h, dev.header)
    // a slot that is in sync, or blocked, is not touched, whatever fails
    ensures Openable(h, old(dev.header)) || Blocked(h, old(dev.header)) ==>
      dev.header == old(dev.header) && dev.SinceEqual(old(|dev.log|), old(dev.header))
    // a blocked slot cannot be updated, and without a failing call all others can
    ensures Blocked(h, old(dev.header)) ==> !ok
    ensures old(dev.faults) <= dev.faults
    ensures dev.faults == old(dev.faults) && Holds(old(dev.header), existing) && existing.slot != h.slot ==>
      (ok <==> !Blocked(h, old(dev.header)))
  {
    var valid := CheckHandlerKey(dev, h);
    if valid.None? {
      return false;
    }
    if valid.value {
      return true;
    }
    ok := dev.RemoveKey(h.slot, existing);
    assert existing.slot != h.slot ==> At(old(dev.header), existing.slot) == At(dev.header, existing.slot);
    if !ok {
      return false;
    }
    ok := AddHandlerKey(dev, existing, h);
  }

  datatype FailedSync = UpdateFailed(slot: Slot) | AddFailed(slot: Slot) | RemoveFailed(slot: Slot)

  function Names(slots: set<Slot>): set<string> {
    set s | s in slots :: FormatInt(s)
  }

  function HandlerSlots(hs: seq<Handler>): set<Slot> {
    set i | 0 <= i < |hs| :: hs[i].slot
  }

  lemma VisitNext(hs: seq<Handler>, i: nat)
    requires i < |hs|
    ensures Names(HandlerSlots(hs[..i + 1])) == Names(HandlerSlots(hs[..i])) + {FormatInt(hs[i].slot)}
    ensures HandlerSlots(hs[..i + 1]) == HandlerSlots(hs[..i]) + {hs[i].slot}
    ensures hs[i].slot in HandlerSlots(hs)
    ensures DistinctSlots(hs) ==> hs[i].slot !in HandlerSlots(hs[..i])
  {
    assert HandlerSlots(hs[..i + 1]) == HandlerSlots(hs[..i]) + {hs[i].slot};
  }

  lemma NameIn(slot: Slot, slots: set<Slot>)
    ensures ParseInt(FormatInt(slot)) == Some(slot)
    ensures FormatInt(slot) in Names(slots) <==> slot in slots
  {
    ParseFormat(slot);
    if FormatInt(slot) in Names(slots) {
      var s :| s in slots && FormatInt(s) == FormatInt(slot);
      FormatInjective(s, slot);
    }
  }

  /** One listed name's turn in the cleanup. */
  method RemoveUnvisited(dev: Device, k: Key, name: string, visited: set<string>, ghost slot: Slot, ghost kept: set<Slot>)
    returns (failed: Option<FailedSync>)
    requires name == FormatInt(slot) && visited == Names(kept)
    modifies dev`header, dev`log, dev`faults
    ensures old(dev.log) <= dev.log && dev.SinceAgreeOutside(old(|dev.log|), old(dev.header), {slot})
    ensures AgreeOutside(old(dev.header), dev.header, {slot})
    ensures slot in kept ==> dev.header == old(dev.header) && dev.log == old(dev.log)
    ensures failed == None || failed == Some(RemoveFailed(slot))
    ensures failed == None ==> slot in kept || slot !in dev.header.slots
    ensures old(dev.faults) <= dev.faults
    ensures dev.faults == old(dev.faults) && Holds(old(dev.header), k) ==> failed == None
  {
    NameIn(slot, kept);
    if name in visited {
      return None;
    }
    var parsed := ParseInt(name);
    if parsed.None? {
      assert false;  // the provider's names are canonical numerals
    }
    var ok := dev.RemoveKey(parsed.value, k);
    return if ok then None else Some(RemoveFailed(parsed.value));
  }

  /** A map range yields its names in any order. */
  method PickName(names: set<string>, ghost slots: set<Slot>) returns (name: string, rest: set<string>, ghost slot: Slot)
    requires names == Names(slots) && names != {}
    ensures slot in slots && name == FormatInt(slot)
    ensures rest == Names(slots - {slot}) && |rest| < |names|
    ensures rest == {} ==> slots == {slot}
  {
    hide Names;
    name :| name in names;
    slot := Named(slots, name);
    DropName(slots, slot);
    rest := names - {name};
    NoNames(slots - {slot});
  }

  lemma Named(slots: set<Slot>, name: string) returns (slot: Slot)
    requires name in Names(slots)
    ensures slot in slots && name == FormatInt(slot)
  {
    slot :| slot in slots && name == FormatInt(slot);
  }

  lemma NoNames(slots: set<Slot>)
    ensures Names(slots) == {} ==> slots == {}
  {
    assert forall s :: s in slots ==> FormatInt(s) in Names(slots);
  }

  /** Drop the slots listed in `keyslots` that no handler was visited for, in any order. */
  method RemoveStale(dev: Device, k: Key, keyslots: set<string>, visited: set<string>, reported: seq<FailedSync>,
                     ghost listed: set<Slot>, ghost kept: set<Slot>)
    returns (failed: seq<FailedSync>)
    requires keyslots == Names(listed) && visited == Names(kept)
    modifies dev`header, dev`log, dev`faults
    // only the listed slots that no handler has are touched
    ensures old(dev.log) <= dev.log
    ensures AgreeOutside(old(dev.header), dev.header, listed - kept)
    ensures dev.SinceAgreeOutside(old(|dev.log|), old(dev.header), listed - kept)
    ensures listed <= kept ==> dev.header == old(dev.header) && dev.log == old(dev.log)
    ensures reported <= failed
    ensures forall s :: s in listed - kept && At(dev.header, s).key.Some? ==> RemoveFailed(s) in failed
    ensures old(dev.faults) <= dev.faults
    ensures dev.faults == old(dev.faults) && Holds(old(dev.header), k) && k.slot in kept ==> failed == reported
  {
    hide Names;
    failed := reported;
    var rest := keyslots;
    NoNames(listed);
    ghost var left := listed;
    while rest != {}
      invariant rest == Names(left) && left <= listed
      invariant rest == {} ==> left == {}
      invariant old(dev.log) <= dev.log && reported <= failed
      invariant AgreeOutside(old(dev.header), dev.header, listed - kept)
      invariant dev.SinceAgreeOutside(old(|dev.log|), old(dev.header), listed - kept)
      invariant forall s :: s in listed - kept && s !in left && At(dev.header, s).key.Some? ==> RemoveFailed(s) in failed
      invariant listed <= kept ==> dev.header == old(dev.header) && dev.log == old(dev.log)
      invariant old(dev.faults) <= dev.faults
      invariant dev.faults == old(dev.faults) && Holds(old(dev.header), k) && k.slot in kept ==> failed == reported
      decreases |rest|
    {
      var name;
      ghost var slot;
      name, rest, slot := PickName(rest, left);
      left := left - {slot};
      ghost var before := dev.header;
      var failure := RemoveUnvisited(dev, k, name, visited, slot, kept);
      assert forall s :: s != slot ==> At(before, s) == At(dev.header, s);
      if failure.Some? {
        failed := failed + [failure.value];
      }
    }
  }

  lemma DropName(slots: set<Slot>, slot: Slot)
    requires slot in slots
    ensures Names(slots) - {FormatInt(slot)} == Names(slots - {slot})
  {
    forall s | s in slots - {slot}
      ensures FormatInt(s) != FormatInt(slot)
    {
      if FormatInt(s) == FormatInt(slot) {
        FormatInjective(s, slot);
      }
    }
  }

  /** One handler's turn: update its slot if it was listed, add it otherwise. */
  method SyncHandler(dev: Device, h: Handler, k: Key, keyslots: set<string>, ghost listed: set<Slot>)
    returns (failed: Option<FailedSync>)
    requires keyslots == Names(listed)
    modifies dev`header, dev`log, dev`faults
    ensures old(dev.log) <= dev.log && dev.SinceAgreeOutside(old(|dev.log|), old(dev.header), {h.slot})
    ensures AgreeOutside(old(dev.header), dev.header, {h.slot})
    ensures failed.None? ==> InSync(h, dev.header)
    ensures failed.None? ==> (Blocked(h, dev.header) <==> h.slot !in listed && h.Derived? && At(old(dev.header), h.slot).token == Some(Foreign))
    ensures failed.Some? ==> failed.value == if h.slot in listed then UpdateFailed(h.slot) else AddFailed(h.slot)
    ensures h.slot in listed && (Openable(h, old(dev.header)) || Blocked(h, old(dev.header))) ==>
      dev.header == old(dev.header) && dev.SinceEqual(old(|dev.log|), old(dev.header))
    ensures h.slot in listed && Blocked(h, old(dev.header)) ==> failed.Some?
    ensures old(dev.faults) <= dev.faults
    ensures dev.faults == old(dev.faults) && Holds(old(dev.header), k) && k.slot != h.slot ==>
      (failed.None? <==> h.slot !in listed || !Blocked(h, old(dev.header)))
  {
    NameIn(h.slot, listed);
    if FormatInt(h.slot) in keyslots {
      var ok := UpdateKey(dev, k, h);
      return if ok then None else Some(UpdateFailed(h.slot));
    } else {
      var ok := AddHandlerKey(dev, k, h);
      return if ok then None else Some(AddFailed(h.slot));
    }
  }

  /** A handler after a sync: usable, or reported, or the one that unlocked; or its key stands
      in a slot whose leftover token cannot be read. */
  predicate Settled(h: Handler, start: Header, hd: Header, failed: seq<FailedSync>, used: Slot) {
    || h.slot == used || UpdateFailed(h.slot) in failed || AddFailed(h.slot) in failed
    || (InSync(h, hd) && (Blocked(h, hd) <==> LeftBehind(h, start)))
  }

  /** A blocked slot that was listed is reported, and is as it was. */
  predicate StaysBlocked(h: Handler, start: Header, hd: Header, failed: seq<FailedSync>) {
    h.slot in start.slots && Blocked(h, start) ==>
      At(hd, h.slot) == At(start, h.slot) && UpdateFailed(h.slot) in failed
  }

  /** Touching other slots, and reporting more, changes nothing for these handlers. */
  lemma SettledKept(hs: seq<Handler>, start: Header, a: Header, b: Header, failed: seq<FailedSync>, more: seq<FailedSync>,
                    used: Slot, touched: set<Slot>)
    requires AgreeOutside(a, b, touched) && failed <= more
    requires forall i :: 0 <= i < |hs| ==> hs[i].slot !in touched
    requires forall i :: 0 <= i < |hs| ==> Settled(hs[i], start, a, failed, used)
    requires forall i :: 0 <= i < |hs| && hs[i].slot != used ==> StaysBlocked(hs[i], start, a, failed)
    ensures forall i :: 0 <= i < |hs| ==> Settled(hs[i], start, b, more, used)
    ensures forall i :: 0 <= i < |hs| && hs[i].slot != used ==> StaysBlocked(hs[i], start, b, more)
  {
    forall i | 0 <= i < |hs|
      ensures Settled(hs[i], start, b, more, used)
      ensures hs[i].slot != used ==> StaysBlocked(hs[i], start, b, more)
    {
      assert Settled(hs[i], start, a, failed, used) && At(a, hs[i].slot) == At(b, hs[i].slot);
      assert forall f :: f in failed ==> f in more;
    }
  }

  /** One handler's turn settles it. */
  lemma SettledNow(h: Handler, start: Header, before: Header, hd: Header, failure: Option<FailedSync>, failed: seq<FailedSync>, used: Slot)
    requires At(before, h.slot) == At(start, h.slot)
    requires failure.Some? ==> failure.value in failed
    requires failure.Some? ==> failure.value == if h.slot in start.slots then UpdateFailed(h.slot) else AddFailed(h.slot)
    requires failure.None? ==> InSync(h, hd)
    requires failure.None? ==>
      (Blocked(h, hd) <==> h.slot !in start.slots && h.Derived? && At(before, h.slot).token == Some(Foreign))
    requires h.slot in start.slots && Blocked(h, before) ==> At(hd, h.slot) == At(before, h.slot) && failure.Some?
    ensures Settled(h, start, hd, failed, used) && StaysBlocked(h, start, hd, failed)
  {
  }

  lemma SettledUsed(h: Handler, start: Header, hd: Header, failed: seq<FailedSync>, used: Slot)
    requires h.slot == used
    ensures Settled(h, start, hd, failed, used)
  {
  }

  lemma AlreadySynced(hs: seq<Handler>, i: nat, hd: Header)
    requires i < |hs|
    ensures AllSynced(hs, hd) ==> Openable(hs[i], hd) && hs[i].slot in hd.slots.Keys
  {
  }

  lemma NothingStale(hs: seq<Handler>, hd: Header)
    ensures AllSynced(hs, hd) ==> hd.slots.Keys <= HandlerSlots(hs)
    ensures forall i :: 0 <= i < |hs| ==> hs[i].slot in HandlerSlots(hs)
  {
  }

  lemma NoneVisited(hs: seq<Handler>, hd: Header, used: Slot)
    ensures Names(HandlerSlots(hs[..0])) == {} && NoneBlocked(hs[..0], hd, used)
  {
  }

  lemma BlockedNext(hs: seq<Handler>, i: nat, hd: Header, used: Slot)
    requires i < |hs|
    ensures NoneBlocked(hs[..i + 1], hd, used) <==>
      NoneBlocked(hs[..i], hd, used) && (hs[i].slot == used || hs[i].slot !in hd.slots || !Blocked(hs[i], hd))
  {
    hide Blocked;
    forall j | 0 <= j < i
      ensures hs[..i + 1][j] == hs[..i][j]
    {
    }
  }

  lemma BlockedAlike(h: Handler, a: Header, b: Header)
    requires At(a, h.slot) == At(b, h.slot)
    ensures Blocked(h, a) <==> Blocked(h, b)
    ensures InSync(h, a) <==> InSync(h, b)
  {
  }

  /** The handlers that did not unlock the volume can use or replace what is in their slots. */
  predicate NoneBlocked(hs: seq<Handler>, hd: Header, used: Slot) {
    forall i :: 0 <= i < |hs| && hs[i].slot != used && hs[i].slot in hd.slots ==> !Blocked(hs[i], hd)
  }

  /** The loop over the handlers. */
  method SyncHandlers(dev: Device, hs: seq<Handler>, k: Key, keyslots: set<string>)
    returns (failed: seq<FailedSync>, visited: set<string>)
    requires DistinctSlots(hs) && k.slot in HandlerSlots(hs) && keyslots == Names(dev.header.slots.Keys)
    modifies dev`header, dev`log, dev`faults
    ensures old(dev.log) <= dev.log && dev.SinceAgreeAt(old(|dev.log|), old(dev.header), k.slot)
    ensures At(old(dev.header), k.slot) == At(dev.header, k.slot)
    ensures visited == Names(HandlerSlots(hs))
    ensures forall i :: 0 <= i < |hs| ==> Settled(hs[i], old(dev.header), dev.header, failed, k.slot)
    ensures forall i :: 0 <= i < |hs| && hs[i].slot != k.slot ==> StaysBlocked(hs[i], old(dev.header), dev.header, failed)
    ensures forall s :: At(dev.header, s).key.Some? ==> s in old(dev.header).slots || s in HandlerSlots(hs)
    ensures AllSynced(hs, old(dev.header)) ==>
      dev.header == old(dev.header) && dev.SinceEqual(old(|dev.log|), old(dev.header))
    ensures old(dev.faults) <= dev.faults
    ensures dev.faults == old(dev.faults) && Holds(old(dev.header), k) ==>
      && (failed == [] <==> NoneBlocked(hs, old(dev.header), k.slot))
      && forall f :: f in failed ==> f.UpdateFailed? && f.slot in old(dev.header).slots
  {
    hide Settled, StaysBlocked, InSync, Openable, AllSynced, Names, HandlerSlots, Blocked, NoneBlocked;
    ghost var start := dev.header;
    ghost var from := |dev.log|;
    failed, visited := [], {};
    ghost var quiet := AllSynced(hs, start);
    ghost var holds := Holds(start, k);
    NoneVisited(hs, start, k.slot);
    for i := 0 to |hs|
      invariant old(dev.log) <= dev.log && dev.SinceAgreeAt(from, start, k.slot)
      invariant At(start, k.slot) == At(dev.header, k.slot)
      invariant visited == Names(HandlerSlots(hs[..i]))
      invariant forall j :: 0 <= j < i ==> Settled(hs[j], start, dev.header, failed, k.slot)
      invariant forall j :: 0 <= j < i && hs[j].slot != k.slot ==> StaysBlocked(hs[j], start, dev.header, failed)
      invariant forall s :: At(dev.header, s).key.Some? ==> s in start.slots || s in HandlerSlots(hs)
      invariant quiet ==> dev.header == start && dev.SinceEqual(from, start)
      invariant AgreeOutside(start, dev.header, HandlerSlots(hs[..i]))
      invariant old(dev.faults) <= dev.faults
      invariant dev.faults == old(dev.faults) && holds ==> (failed == [] <==> NoneBlocked(hs[..i], start, k.slot))
      invariant dev.faults == old(dev.faults) && holds ==> forall f :: f in failed ==> f.UpdateFailed? && f.slot in start.slots
    {
      var h := hs[i];
      visited := visited + {FormatInt(h.slot)};
      VisitNext(hs, i);
      BlockedNext(hs, i, start, k.slot);
      if k.slot == h.slot {
        SettledUsed(h, start, dev.header, failed, k.slot);
        continue;
      }
      ghost var before, reported := dev.header, failed;
      BlockedAlike(h, start, before);
      AlreadySynced(hs, i, start);
      var failure := SyncHandler(dev, h, k, keyslots, start.slots.Keys);
      if failure.Some? {
        failed := failed + [failure.value];
      }
      SettledKept(hs[..i], start, before, dev.header, reported, failed, k.slot, {h.slot});
      SettledNow(h, start, before, dev.header, failure, failed, k.slot);
    }
    assert hs[..|hs|] == hs;
  }

  /** Reconcile the slots with the handlers, using the key `k` that unlocked the volume. */
  method SyncKeys(dev: Device, hs: seq<Handler>, k: Key) returns (r: Option<seq<FailedSync>>)
    requires DistinctSlots(hs) && k.slot in HandlerSlots(hs)
    modifies dev`header, dev`log, dev`faults
    // safety: whatever fails, the slot and token that unlocked the volume are never touched
    ensures old(dev.log) <= dev.log && dev.SinceAgreeAt(old(|dev.log|), old(dev.header), k.slot)
    ensures At(old(dev.header), k.slot) == At(dev.header, k.slot)
    // the only error is that the slots could not be listed
    ensures r.None? ==> dev.header == old(dev.header) && dev.SinceEqual(old(|dev.log|), dev.header)
    // every failure is reported: what is not reported is settled or gone
    ensures r.Some? ==> forall i :: 0 <= i < |hs| ==> Settled(hs[i], old(dev.header), dev.header, r.value, k.slot)
    ensures r.Some? ==> forall s :: At(dev.header, s).key.Some? ==> s in HandlerSlots(hs) || RemoveFailed(s) in r.value
    // a blocked slot is reported and left as it is, whatever fails
    ensures r.Some? ==> forall i :: 0 <= i < |hs| && hs[i].slot != k.slot ==>
      StaysBlocked(hs[i], old(dev.header), dev.header, r.value)
    // a header that is already in sync is not written to at all
    ensures AllSynced(hs, old(dev.header)) ==>
      dev.header == old(dev.header) && dev.SinceEqual(old(|dev.log|), old(dev.header))
    // without a failing call, nothing is reported exactly when no listed slot is blocked
    ensures old(dev.faults) <= dev.faults
    ensures dev.faults == old(dev.faults) && Holds(old(dev.header), k) ==>
      r.Some? && (r.value == [] <==> NoneBlocked(hs, old(dev.header), k.slot))
    // and only updates are reported
    ensures dev.faults == old(dev.faults) && Holds(old(dev.header), k) ==>
      forall f :: f in r.value ==> f.UpdateFailed? && f.slot in old(dev.header).slots
  {
    hide Settled, StaysBlocked, InSync, Openable, AllSynced, Names, HandlerSlots, Blocked, NoneBlocked;
    ghost var start := dev.header;
    var keyslots := dev.ReadKeyslots();
    if keyslots.None? {
      return None;
    }
    var failed, visited := SyncHandlers(dev, hs, k, keyslots.value);
    ghost var before, reported := dev.header, failed;
    ghost var stale := start.slots.Keys - HandlerSlots(hs);
    NothingStale(hs, start);
    failed := RemoveStale(dev, k, keyslots.value, visited, failed, start.slots.Keys, HandlerSlots(hs));
    SettledKept(hs, start, before, dev.header, reported, failed, k.slot, stale);
    return Some(failed);
  }

  // ---------------------------------------------------------------- entry points

  datatype OpenResult = Opened(slot: Slot, failed: seq<FailedSync>) | NotOpened

  /** The first handler, in order, whose key opens the volume. */
  method TryUnlock(dev: Device, hs: seq<Handler>) returns (r: Option<(nat, Key)>)
    requires !dev.open
    modifies dev
    ensures dev.header == old(dev.header) && dev.open == r.Some?
    ensures old(dev.log) <= dev.log && dev.SinceEqual(old(|dev.log|), dev.header)
    ensures r.Some? ==> r.value.0 < |hs| && Openable(hs[r.value.0], dev.header)
    ensures r.Some? ==> r.value.1.slot == hs[r.value.0].slot && Holds(dev.header, r.value.1)
    // without a failing call it is the first that can, if there is one
    ensures old(dev.faults) <= dev.faults
    ensures dev.faults == old(dev.faults) ==>
      forall j :: 0 <= j < (if r.Some? then r.value.0 else |hs|) ==> !Openable(hs[j], dev.header)
  {
    for i := 0 to |hs|
      invariant dev.header == old(dev.header) && !dev.open
      invariant old(dev.log) <= dev.log && dev.SinceEqual(old(|dev.log|), dev.header)
      invariant old(dev.faults) <= dev.faults
      invariant dev.faults == old(dev.faults) ==> forall j :: 0 <= j < i ==> !Openable(hs[j], dev.header)
    {
      var t := ReadHandlerToken(dev, hs[i].slot);
      if t.Usable? {
        var k := GetKey(dev, hs[i], t.token);
        if k.GotKey? {
          var ok := dev.Unlock(k.key);
          if ok {
            return Some((i, k.key));
          }
        }
      }
    }
    return None;
  }

  predicate FirstOpenable(hs: seq<Handler>, hd: Header, i: nat)
    requires i < |hs|
  {
    Openable(hs[i], hd) && forall j :: 0 <= j < i ==> !Openable(hs[j], hd)
  }

  /** No occupied slot of a handler is blocked. */
  predicate AllReadable(hs: seq<Handler>, hd: Header) {
    forall i :: 0 <= i < |hs| && hs[i].slot in hd.slots ==> !Blocked(hs[i], hd)
  }

  predicate NoneLeftBehind(hs: seq<Handler>, hd: Header) {
    forall i :: 0 <= i < |hs| ==> !LeftBehind(hs[i], hd)
  }

  /** Open the (not yet open) volume and reconcile its slots. */
  method Open(dev: Device, hs: seq<Handler>) returns (r: OpenResult)
    requires DistinctSlots(hs) && !dev.open
    modifies dev
    // a failing call can leave the volume open behind an error
    ensures r.Opened? ==> dev.open
    ensures r.NotOpened? && dev.open ==> dev.faults > old(dev.faults)
    ensures old(dev.log) <= dev.log
    // an open that fails has written nothing
    ensures r.NotOpened? ==> dev.header == old(dev.header) && dev.SinceEqual(old(|dev.log|), dev.header)
    // the handler that opened the volume can open it again after every single call
    ensures r.Opened? ==> exists i :: 0 <= i < |hs| && hs[i].slot == r.slot && dev.KeepsUnlocking(old(|dev.log|), hs[i])
    // every slot is settled, or empty, or its failure is reported
    ensures r.Opened? ==> forall i :: 0 <= i < |hs| ==> Settled(hs[i], old(dev.header), dev.header, r.failed, r.slot)
    ensures r.Opened? ==>
      forall s :: At(dev.header, s).key.Some? ==> s in HandlerSlots(hs) || RemoveFailed(s) in r.failed
    // convergence: nothing reported and no leftover token means the goal is reached
    ensures r.Opened? && r.failed == [] && NoneLeftBehind(hs, old(dev.header)) ==> AllSynced(hs, dev.header)
    // and from the goal nothing is written, whatever fails
    ensures AllSynced(hs, old(dev.header)) ==>
      dev.header == old(dev.header) && dev.SinceEqual(old(|dev.log|), old(dev.header))
    // a blocked slot stays as it is and is reported, whatever fails
    ensures r.Opened? ==> forall i :: 0 <= i < |hs| ==> StaysBlocked(hs[i], old(dev.header), dev.header, r.failed)
    // without a failing call, the first handler that can open the volume does, if there is one
    ensures old(dev.faults) <= dev.faults
    ensures dev.faults == old(dev.faults) ==>
      (r.Opened? <==> exists i :: 0 <= i < |hs| && Openable(hs[i], old(dev.header)))
    ensures dev.faults == old(dev.faults) && r.Opened? ==>
      exists i :: 0 <= i < |hs| && hs[i].slot == r.slot && FirstOpenable(hs, old(dev.header), i)
    // and the goal is reached at once exactly when every handler's slot can be repaired
    ensures dev.faults == old(dev.faults) && r.Opened? ==>
      (AllSynced(hs, dev.header) <==> AllRepairable(hs, old(dev.header)))
    ensures dev.faults == old(dev.faults) && r.Opened? ==> (r.failed == [] <==> AllReadable(hs, old(dev.header)))
  {
    hide Settled, AllSynced, AllRepairable, AllReadable, NoneBlocked, StaysBlocked, HandlerSlots, NoneLeftBehind;
    ghost var start := dev.header;
    var isOpen := dev.IsOpen();
    if isOpen.None? {
      return NotOpened;
    }
    var unlocked := TryUnlock(dev, hs);
    if unlocked.None? {
      return NotOpened;
    }
    var (used, k) := unlocked.value;
    NothingStale(hs, start);
    var synced := SyncKeys(dev, hs, k);
    if synced.None? {
      return NotOpened;
    }
    var failed := synced.value;
    assert dev.KeepsUnlocking(old(|dev.log|), hs[used]);
    UsedIsReadable(hs, start, dev.header, failed, used);
    if failed == [] && NoneLeftBehind(hs, start) {
      SettledIsSynced(hs, start, dev.header, used);
    }
    if dev.faults == old(dev.faults) {
      assert FirstOpenable(hs, start, used);
      Reached(hs, start, dev.header, failed, used);
    }
    return Opened(k.slot, failed);
  }

  lemma UsedIsReadable(hs: seq<Handler>, start: Header, hd: Header, failed: seq<FailedSync>, used: nat)
    requires DistinctSlots(hs) && used < |hs| && Openable(hs[used], start)
    requires forall i :: 0 <= i < |hs| && hs[i].slot != hs[used].slot ==> StaysBlocked(hs[i], start, hd, failed)
    ensures forall i :: 0 <= i < |hs| ==> StaysBlocked(hs[i], start, hd, failed)
    ensures NoneBlocked(hs, start, hs[used].slot) <==> AllReadable(hs, start)
  {
    SameSlot(hs, used);
  }

  lemma SameSlot(hs: seq<Handler>, used: nat)
    requires DistinctSlots(hs) && used < |hs|
    ensures forall i :: 0 <= i < |hs| ==> (hs[i].slot == hs[used].slot <==> i == used)
  {
    forall i | 0 <= i < |hs| && i != used
      ensures hs[i].slot != hs[used].slot
    {
      if i < used {
        assert hs[i].slot != hs[used].slot;
      } else {
        assert hs[used].slot != hs[i].slot;
      }
    }
  }

  lemma SettledIsSynced(hs: seq<Handler>, start: Header, hd: Header, used: nat)
    requires DistinctSlots(hs) && used < |hs| && Openable(hs[used], hd) && NoneLeftBehind(hs, start)
    requires forall i :: 0 <= i < |hs| ==> Settled(hs[i], start, hd, [], hs[used].slot)
    requires forall s :: At(hd, s).key.Some? ==> s in HandlerSlots(hs)
    ensures AllSynced(hs, hd)
  {
    SameSlot(hs, used);
    forall i | 0 <= i < |hs|
      ensures Openable(hs[i], hd)
    {
      assert Settled(hs[i], start, hd, [], hs[used].slot);
    }
    OccupiedSlots(hs, hd);
  }

  /** Without a failing call a sync reaches the goal exactly from repairable slots. */
  lemma Reached(hs: seq<Handler>, start: Header, hd: Header, failed: seq<FailedSync>, used: nat)
    requires DistinctSlots(hs) && used < |hs| && Openable(hs[used], start) && Openable(hs[used], hd)
    requires forall i :: 0 <= i < |hs| ==> Settled(hs[i], start, hd, failed, hs[used].slot)
    requires forall i :: 0 <= i < |hs| ==> StaysBlocked(hs[i], start, hd, failed)
    requires forall s :: At(hd, s).key.Some? ==> s in HandlerSlots(hs) || RemoveFailed(s) in failed
    requires failed == [] <==> NoneBlocked(hs, start, hs[used].slot)
    requires forall f :: f in failed ==> f.UpdateFailed? && f.slot in start.slots
    ensures AllSynced(hs, hd) <==> AllRepairable(hs, start)
    ensures failed == [] <==> AllReadable(hs, start)
  {
    UsedIsReadable(hs, start, hd, failed, used);
    if AllRepairable(hs, start) {
      SettledIsSynced(hs, start, hd, used);
    }
    if AllSynced(hs, hd) {
      forall i | 0 <= i < |hs|
        ensures Repairable(hs[i], start)
      {
        assert Settled(hs[i], start, hd, failed, hs[used].slot) && StaysBlocked(hs[i], start, hd, failed);
        SameSlot(hs, used);
        BlockedAlikeIf(hs[i], start, hd);
      }
    }
  }

  lemma BlockedAlikeIf(h: Handler, a: Header, b: Header)
    ensures At(a, h.slot) == At(b, h.slot) ==> (Blocked(h, a) <==> Blocked(h, b))
  {
  }

  /** With its salted key in its slot, and a token it can read, any one handler is enough. */
  method OpenWith(dev: Device, hs: seq<Handler>, i: nat) returns (r: OpenResult)
    requires DistinctSlots(hs) && !dev.open && i < |hs| && hs[i].slot in dev.header.slots
    requires KeyStands(hs[i], dev.header.slots[hs[i].slot],
                       if hs[i].slot in dev.header.tokens then Some(dev.header.tokens[hs[i].slot]) else None)
    modifies dev
    ensures dev.faults == old(dev.faults) ==> r.Opened?
    ensures r.Opened? ==> dev.open
  {
    OpenableMeaning(hs[i], dev.header);
    hide Openable, KeyStands;
    r := Open(dev, hs);
  }

  /** Close the volume; one that is not open is no error. */
  method Close(dev: Device) returns (ok: bool)
    modifies dev`open, dev`log, dev`faults
    ensures dev.log == old(dev.log) + [dev.header]
    ensures dev.open == (old(dev.open) && !ok)
    ensures dev.faults == old(dev.faults) + if ok then 0 else 1
  {
    var r := dev.CloseMapped();
    return !r.CloseFailed?;
  }

  /** Open, close and open again. `between` is when the first open ended, `calm` that no call
      failed since. */
  method Reopen(dev: Device, hs: seq<Handler>)
    returns (first: OpenResult, second: OpenResult, ghost between: nat, ghost calm: bool)
    requires DistinctSlots(hs) && !dev.open
    modifies dev
    // no lock-out: whatever failed in the first, a second without a failing call opens the volume
    ensures first.Opened? && calm ==> second.Opened?
    // and after a clean first one it writes nothing, whatever fails, and reports nothing
    ensures first.Opened? && first.failed == [] && NoneLeftBehind(hs, old(dev.header)) ==>
      AllSynced(hs, dev.header) && between <= |dev.log| && dev.SinceEqual(between, dev.header)
    ensures first.Opened? && first.failed == [] && NoneLeftBehind(hs, old(dev.header)) && calm ==>
      second.Opened? && second.failed == []
    // a first open without a failing call, from repairable slots, is such a clean one
    ensures dev.faults == old(dev.faults) ==> calm
    ensures dev.faults == old(dev.faults) && first.Opened? && AllRepairable(hs, old(dev.header)) ==>
      AllSynced(hs, dev.header) && second.Opened? && second.failed == []
  {
    hide Settled, Openable, AllRepairable, NoneLeftBehind, StaysBlocked, HandlerSlots;
    first := Open(dev, hs);
    ghost var middle := dev.header;
    between := |dev.log|;
    ghost var faults := dev.faults;
    SyncedIsReadable(hs, middle);
    second := NotOpened;
    var closed := Close(dev);
    if closed {
      second := Open(dev, hs);
    }
    calm := dev.faults == faults;
  }

  lemma SyncedIsReadable(hs: seq<Handler>, hd: Header)
    ensures AllSynced(hs, hd) ==> AllReadable(hs, hd)
  {
  }

  /** A blocked slot is never repaired: however often the volume is closed and opened, and
      whatever fails, the slot stays as it is, and every open that succeeds reports it. */
  method OpenRepeatedly(dev: Device, hs: seq<Handler>, n: nat, i: nat) returns (results: seq<OpenResult>)
    requires DistinctSlots(hs) && i < |hs|
    requires hs[i].slot in dev.header.slots && Blocked(hs[i], dev.header)
    modifies dev
    ensures At(dev.header, hs[i].slot) == At(old(dev.header), hs[i].slot)
    ensures forall r :: r in results && r.Opened? ==> UpdateFailed(hs[i].slot) in r.failed
    ensures |results| <= n && (dev.faults == old(dev.faults) ==> |results| == n)
  {
    hide Settled, Openable, AllSynced, AllRepairable, AllReadable, NoneLeftBehind, HandlerSlots, FirstOpenable;
    results := [];
    for k := 0 to n
      invariant |results| <= k && old(dev.faults) <= dev.faults
      invariant dev.faults == old(dev.faults) ==> |results| == k
      invariant At(dev.header, hs[i].slot) == At(old(dev.header), hs[i].slot)
      invariant hs[i].slot in dev.header.slots && Blocked(hs[i], dev.header)
      invariant forall r :: r in results && r.Opened? ==> UpdateFailed(hs[i].slot) in r.failed
    {
      var closed := Close(dev);
      if closed {
        ghost var before := dev.header;
        var r := Open(dev, hs);
        assert r.Opened? ==> StaysBlocked(hs[i], before, dev.header, r.failed);
        results := results + [r];
      }
    }
  }

  const STATIC: Handler := Derived(0, [1], [])

  /** Both ways of being blocked exist, beside a handler that can open the volume. */
  lemma BlockedSlots()
    ensures var h, hd := Derived(1, [2], []), Header(map[0 := [1], 1 := [2]], map[1 := Foreign]);
      DistinctSlots([STATIC, h]) && Openable(STATIC, hd) && InSync(h, hd) && Blocked(h, hd)
    ensures var h, hd := Sealing(1, Kms, 7, []), Header(map[0 := [1], 1 := [2]], map[1 := Sealed(Kms, 8, [2])]);
      DistinctSlots([STATIC, h]) && Openable(STATIC, hd) && Blocked(h, hd)
  {
    Unsalted([1]);
    Unsalted([2]);
  }

  lemma Unsalted(secret: Bytes)
    ensures secret + [] == secret
  {
  }

  /** A token left in an empty slot: an open without a failing call reports nothing, yet the new
      key cannot be used, and the next open reports it. */
  method LeftoverToken(dev: Device) returns (first: OpenResult, second: OpenResult)
    requires dev.header == Header(map[0 := [1]], map[1 := Foreign]) && !dev.open
    modifies dev
    ensures var hs := [STATIC, Derived(1, [2], [])];
      dev.faults == old(dev.faults) ==>
        && first.Opened? && first.failed == [] && !AllSynced(hs, dev.header)
        && second.Opened? && UpdateFailed(1) in second.failed
  {
    hide HandlerSlots, AllRepairable;
    var hs := [STATIC, Derived(1, [2], [])];
    Unsalted([1]);
    assert Openable(hs[0], dev.header) && LeftBehind(hs[1], dev.header);
    first := Open(dev, hs);
    ghost var middle := dev.header;
    assert first.Opened? ==> Settled(hs[1], old(dev.header), middle, first.failed, first.slot);
    second := NotOpened;
    var closed := Close(dev);
    if closed {
      second := Open(dev, hs);
    }
    assert second.Opened? ==> StaysBlocked(hs[1], middle, dev.header, second.failed);
  }

  /** A new key from the first handler, in order, that can make one. */
  method TryNewKey(dev: Device, hs: seq<Handler>) returns (r: Option<(nat, Key, Option<Token>)>)
    modifies dev`faults
    ensures r.Some? ==> r.value.0 < |hs| && r.value.1.slot == hs[r.value.0].slot
    ensures r.Some? ==> Yields(hs[r.value.0], r.value.2) == Some(r.value.1) && r.value.2 != Some(Foreign)
    // the handlers before it failed
    ensures dev.faults == old(dev.faults) + if r.Some? then r.value.0 else |hs|
  {
    for i := 0 to |hs|
      invariant dev.faults == old(dev.faults) + i
    {
      var created := NewKey(dev, hs[i]);
      if created.Some? {
        return Some((i, created.value.0, created.value.1));
      }
    }
    return None;
  }

  /** Format the volume and enrol every handler. */
  method FormatAndEncrypt(dev: Device, hs: seq<Handler>) returns (ok: bool)
    requires DistinctSlots(hs)
    modifies dev`header, dev`log, dev`faults
    // a success reaches the state a sync aims at
    ensures ok ==> hs != [] && AllSynced(hs, dev.header)
    ensures hs == [] ==> !ok && dev.header == old(dev.header)
    // and only a failing call keeps it from doing so
    ensures old(dev.faults) <= dev.faults
    ensures dev.faults == old(dev.faults) && hs != [] ==> ok
  {
    hide Yields, InSync, Openable, Blocked, Settled, StaysBlocked, AllSynced, HandlerSlots, NoneLeftBehind;
    var created := TryNewKey(dev, hs);
    if created.None? {
      return false;
    }
    var (first, key, token) := created.value;
    ok := dev.Encrypt(key);
    if !ok {
      return false;
    }
    if token.Some? {
      ok := dev.SetToken(key.slot, token.value);
      if !ok {
        return false;
      }
    }
    FirstEnrolled(hs[first], dev.header, key, token);
    NothingStale(hs, dev.header);
    ok := EnrolOthers(dev, hs, key, first);
  }

  /** The loop of FormatAndEncrypt. */
  method EnrolOthers(dev: Device, hs: seq<Handler>, key: Key, ghost first: nat) returns (ok: bool)
    requires DistinctSlots(hs) && first < |hs| && hs[first].slot == key.slot
    requires Openable(hs[first], dev.header) && Holds(dev.header, key)
    requires forall s :: At(dev.header, s).key.Some? ==> s in HandlerSlots(hs)
    requires forall j :: 0 <= j < |hs| ==> At(dev.header, hs[j].slot).token != Some(Foreign)
    modifies dev`header, dev`log, dev`faults
    ensures ok ==> AllSynced(hs, dev.header)
    ensures old(dev.faults) <= dev.faults
    ensures dev.faults == old(dev.faults) ==> ok
  {
    hide InSync, Openable, Blocked, AllSynced, HandlerSlots;
    NothingStale(hs, dev.header);
    for i := 0 to |hs|
      invariant Openable(hs[first], dev.header)
      invariant forall j :: 0 <= j < i ==> Enrolled(hs[j], dev.header, key.slot)
      invariant forall s :: At(dev.header, s).key.Some? ==> s in HandlerSlots(hs)
      invariant forall j :: i <= j < |hs| ==> At(dev.header, hs[j].slot).token != Some(Foreign)
      invariant Holds(dev.header, key) && old(dev.faults) <= dev.faults
    {
      if hs[i].slot == key.slot {
        continue;
      }
      ghost var before := dev.header;
      ok := AddHandlerKey(dev, key, hs[i]);
      if !ok {
        return false;
      }
      EnrolledNow(hs, i, first, before, dev.header, key.slot);
    }
    EnrolledIsSynced(hs, dev.header, first);
    return true;
  }

  lemma FirstEnrolled(h: Handler, hd: Header, key: Key, token: Option<Token>)
    requires At(hd, h.slot) == SlotState(Some(key.value), token) && Yields(h, token) == Some(key) && key.slot == h.slot
    requires token != Some(Foreign)
    ensures Openable(h, hd)
  {
  }

  predicate Enrolled(h: Handler, hd: Header, used: Slot) {
    h.slot == used || Openable(h, hd)
  }

  lemma EnrolledNow(hs: seq<Handler>, i: nat, first: nat, a: Header, b: Header, used: Slot)
    requires DistinctSlots(hs) && i < |hs| && first < |hs| && hs[first].slot == used != hs[i].slot
    requires AgreeOutside(a, b, {hs[i].slot}) && InSync(hs[i], b) && !Blocked(hs[i], b)
    requires Openable(hs[first], a) && forall j :: 0 <= j < i ==> Enrolled(hs[j], a, used)
    ensures Openable(hs[first], b) && forall j :: 0 <= j <= i ==> Enrolled(hs[j], b, used)
  {
    forall j | 0 <= j < i
      ensures Enrolled(hs[j], b, used)
    {
      assert Enrolled(hs[j], a, used) && hs[j].slot != hs[i].slot;
      BlockedAlike(hs[j], a, b);
    }
    BlockedAlike(hs[first], a, b);
  }

  lemma EnrolledIsSynced(hs: seq<Handler>, hd: Header, first: nat)
    requires DistinctSlots(hs) && first < |hs| && Openable(hs[first], hd)
    requires forall i :: 0 <= i < |hs| ==> Enrolled(hs[i], hd, hs[first].slot)
    requires forall s :: At(hd, s).key.Some? ==> s in HandlerSlots(hs)
    ensures AllSynced(hs, hd)
  {
    SameSlot(hs, first);
    forall i | 0 <= i < |hs|
      ensures Openable(hs[i], hd)
    {
      assert Enrolled(hs[i], hd, hs[first].slot);
    }
    OccupiedSlots(hs, hd);
  }

  lemma OccupiedSlots(hs: seq<Handler>, hd: Header)
    requires forall i :: 0 <= i < |hs| ==> Openable(hs[i], hd)
    requires forall s :: At(hd, s).key.Some? ==> s in HandlerSlots(hs)
    ensures AllSynced(hs, hd)
  {
    hide Blocked;
    forall s
      ensures s in hd.slots.Keys <==> s in HandlerSlots(hs)
    {
      if s in hd.slots.Keys {
        assert At(hd, s).key.Some?;
      }
    }
  }
}
