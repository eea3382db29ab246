# Chubo: verified models of its stateful cores

A Dafny 4.11 model of eight components of Chubo, with proofs of what each of them is
for. `dafny verify dfyconfig.toml` checks the whole project.

| files | what they model |
|---|---|
| `KeySlots.dfy` | LUKS key-slot reconciliation: a device header driven towards a list of key handlers while any call may fail |
| `DevicePaths.dfy`, `LoadOptions.dfy`, `WireFormat.dfy`, `BootVariables.dfy` | EFI device paths and load options (sections 10.3 and 3.1.3 of the UEFI 2.10 specification), with their byte layouts as relations that name no printer or parser; the boot variables of a variable store, and the boot order |
| `Follow.dfy` | the file follower: writer, notifier goroutine and reader, over all interleavings |
| `Streams.dfy` | the debug container streamer: three goroutines, two result channels, one gRPC stream |
| `CgroupTree.dfy`, `MapRange.dfy`, `CgroupRename.dfy`, `CgroupWalks.dfy`, `CgroupValues.dfy` | the lazily built cgroup tree, its renaming pass over maps that change while they are ranged over, and the decimal values |
| `Protofile.dfy`, `ProtofileParsing.dfy`, `ProtofileMeaning.dfy` | the XFS protofile writer, a reference reader that inverts it, and what the file then says about each entry of the source |
| `DnsManager.dfy` | the DNS runner manager against its supervisor |
| `ArgsMerge.dfy`, `NodesMatching.dfy` | merging argument sets under per-key policies; matching expected with actual nodes |
| `Wrappers.dfy`, `Decimal.dfy`, `Binary.dfy`, `Text.dfy`, `Distinct.dfy` | option and result types, decimal numerals, little-endian integers and 16-bit text, splitting and joining, order-preserving deduplication |

Code that updates state is a class or a method with loops, proved against functions and
predicates whose own properties are proved as lemmas; what these functions compute is stated
once more by bytes, slices, literals or relations that do not name them (the lemmas called
`...Meaning`, `WireFormat.dfy`, `ProtofileMeaning.dfy`). Goroutines are transition systems: a
state, an action for each atomic step, and invariants over every run. Map ranges take their
entries in an arbitrary order, chosen by `:|`.

## What the proofs found

- An occupied slot with a token of an unknown type, or with a blob of the handler's own kind that
  another service sealed, is never repaired: `checkKey` returns an error instead of "not valid",
  so every later `Open` leaves it and reports it, whatever else happens
  (`KeySlots.OpenRepeatedly`). An unknown token left in an empty slot is worse: `addKey` reports
  success and the new key cannot be used (`KeySlots.LeftoverToken`). Without a failing call `Open`
  reaches its goal if and only if no handler's slot is in either state (`KeySlots.Open`). Whatever
  failed in an open that succeeded, the volume can be closed and opened again (`KeySlots.Reopen`).
- An `Open` that fails after it has unlocked the volume, because the slots cannot be listed, leaves
  it open behind the error; the next `Open` then starts without a key and dereferences a nil one
  (internal/pkg/encryption/encryption.go:116-152), so a close has to come between.
- A load option comes back from its bytes exactly when its description is not empty, ends in a
  unit below 256, and has no unit below 256 followed by one with a zero low byte (and its
  category is below 32). The terminator is searched byte by byte, not unit by unit
  (`LoadOptions.ScanLandsOnEnd`, `LoadOptions.RoundTrip`); an empty description and one
  that ends in a Chinese character are concrete losses (`LoadOptions.LostDescriptions`).
- One boot variable that does not parse, or whose four hex digits mix cases while neither the
  upper-case nor the lower-case spelling exists, fails the whole listing, and with it every
  `AddBootEntry` (`BootVariables.ListBootEntries`, `BootVariables.MixedCase`). The error text
  of `AddBootEntry` speaks of 2^16 entries; index 65535 is never tried.
- The follower's removal error promises completeness only for what is appended after the watch
  was installed. Data appended between the first end of file and that moment can be lost
  (`Follow.LostBeforeWatch`). It is decided at the installation: the removal error skips something
  exactly when the reader was then waiting on unread bytes and nothing was appended between the
  installation and the removal (`Follow.RemovalCompleteIff`).
- After a failure of the watch itself `Read` returns the error once. The notifier is not started
  again: a reader that calls `Read` again and waits at the end of the file sleeps for ever, whatever
  is appended (`Follow.AsleepAfterFailure`, `Follow.SleepsForEver`). That is the only lost wakeup
  for data appended between the installation and the removal (`Follow.NoLostWakeup`).
- When `stream` returns, a loop whose report it has not taken never ends: it finishes on an
  unbuffered channel that nobody reads. That is the send loop after a failed exit status or a
  failed receive loop, and the receive loop after a failed exit status, exit code or send loop,
  in each case unless its channel variable was already nil (`Streams.OutlivesExactly`,
  `Streams.StatusErrorLeaks`). In no other case does a loop outlive it.
- Once the exit code is sent, `stream` waits for the receive loop, and that for the client: on their
  own they get to the return or to that wait (`Streams.Finishes`), and from the wait they return
  exactly when the client leaves, closes its side, or sends input (`Streams.WaitsForClient`,
  `Streams.ClientActReturns`).
- Some run of the renaming does not end in the pure renaming exactly when, at some node, two
  children get one new name or a child's new name is itself renamed to something else
  (`CgroupWalks.EveryRunIff`, `MapRange.WhyTheConditions`).
- A negative value with at least as many fraction digits as its text has characters does not
  parse back: "-0.05" parses and then prints as text that does not (`CgroupValues.RoundTrip`).
- The protofile writer accepts a file named `$` or one with a tab in its name, which the reader
  cannot recover; the exact condition is `Clean` (`ProtofileParsing.Invertible`).
- A consumer that breaks off `RunAll` at a removal leaves the stopped runner in the map; if no
  removal failed, supervisor and map agree exactly when nobody broke off there
  (`DnsManager.Manager.RunAll`).
- Greedy matching can report a missing node although a bijection exists
  (`NodesMatching.GreedyCanMiss`). Some order gets stuck exactly when all the actual nodes of one
  expected node can go to earlier expected nodes (`NodesMatching.StuckIff`); nil is returned for
  every order exactly when that is impossible and there are as many nodes as expected
  (`NodesMatching.NilForEveryOrder`).

## Model

| member | source | states |
|---|---|---|
| `KeySlots.GetKey` | internal/pkg/encryption/keys/kms.go:95-127 | a handler gives back the key its token seals, or its own secret, followed by exactly the salt (said by length and slices, not by the specification function); a missing token or one of another kind is invalid, and any other refusal is an error |
| `KeySlots.NewKey` | internal/pkg/encryption/keys/kms.go:53-92 | a new key is for the handler's slot, ends in exactly the salt, and stands for the handler beside the token that comes with it: GetKey finds it again |
| `KeySlots.OpenableMeaning` | internal/pkg/encryption/keys/salted.go:50-65 | the volume can be unlocked through a handler exactly when its slot holds the secret, or the plain text of a token of its kind and service, followed by exactly the salt, and no token of an unknown type |
| `KeySlots.BlockedMeaning` | internal/pkg/encryption/encryption.go:361-399 | a slot is blocked exactly by a token of an unknown type, or by a blob of the handler's own kind that another service sealed |
| `KeySlots.RepairableMeaning` | internal/pkg/encryption/encryption.go:285-321 | a slot can be repaired unless it is occupied and its token is unknown or a foreign blob of the handler's kind, or it is empty with an unknown token that a handler without tokens leaves there |
| `KeySlots.Device.SetToken` | internal/pkg/encryption/encryption.go:309-313 | replaces the token of one slot; a failure may leave anything, but only in that slot |
| `KeySlots.Device.AddKey` | internal/pkg/encryption/encryption.go:315-318 | needs a key the volume holds; a failure touches only the slot it was aimed at |
| `KeySlots.Device.RemoveKey` | internal/pkg/encryption/encryption.go:272-275 | needs a key the volume holds; touches only its slot, and on success empties it and keeps or drops its token |
| `KeySlots.ReadHandlerToken` | internal/pkg/encryption/encryption.go:361-399 | reads without writing; a token of an unknown type is an error, an absent one is not |
| `KeySlots.CheckHandlerKey` | internal/pkg/encryption/encryption.go:285-301 | writes nothing; yes means the handler can unlock the volume, no that its key is another, and it is an error exactly when the slot is blocked or a call failed |
| `KeySlots.AddHandlerKey` | internal/pkg/encryption/encryption.go:303-321 | at every moment of the run all other slots keep key and token; success makes the handler able to unlock the volume, except exactly when it needs no token and an unknown one was left in its slot; only a failing call or a missing authorising key prevents success |
| `KeySlots.UpdateKey` | internal/pkg/encryption/encryption.go:261-283 | success means the handler can unlock the volume; a slot that is in sync, or blocked, is not written to whatever fails, and a blocked one is an error; without a failing call it succeeds exactly when the slot is not blocked |
| `KeySlots.RemoveStale` | internal/pkg/encryption/encryption.go:240-256 | in any map order, at every moment only listed slots without a handler are touched; each that survives is reported |
| `KeySlots.SyncHandlers` | internal/pkg/encryption/encryption.go:211-238 | the loop over the handlers: the slot that unlocked is untouched at every moment, each handler ends settled or reported, blocked slots stay, and without a failing call only those are reported |
| `KeySlots.SyncKeys` | internal/pkg/encryption/encryption.go:201-259 | safety: after every single call, failed or not, the slot that unlocked the volume has its key and token; every handler ends able to unlock, reported, or on a leftover token; every blocked slot is left as it is and reported; every occupied slot belongs to a handler or is reported; a header already in sync is not written to; without a failing call nothing is reported exactly when no listed slot is blocked |
| `KeySlots.TryUnlock` | internal/pkg/encryption/encryption.go:326-359 | writes nothing; the handler returned can unlock the volume, and without a failing call it is the first that can |
| `KeySlots.Open` | internal/pkg/encryption/encryption.go:110-153 | a failed open wrote nothing, and has left the volume open only behind a failing call; after a successful one the handler that opened the volume can open it again after every call of the run; without a failing call it opens through the first handler that can, exactly if there is one, and the occupied slots are then exactly the handlers', each able to unlock, if and only if every handler's slot was repairable |
| `KeySlots.OpenWith` | internal/pkg/encryption/encryption.go:110-153 | with the salted key of some handler in its slot, and a token it can read if it needs one, an open without a failing call opens the volume |
| `KeySlots.Close` | internal/pkg/encryption/encryption.go:156-166 | closes the volume; one that is not open is no error |
| `KeySlots.Reopen` | internal/pkg/encryption/encryption.go:110-166 | open, close, open. No lock-out: whatever failed in an open that succeeded, closing and opening without a failing call opens the volume; after a clean first one the second writes nothing whatever fails, and reports nothing without a failing call |
| `KeySlots.OpenRepeatedly` | internal/pkg/encryption/encryption.go:110-166 | however often the volume is closed and opened and whatever fails, a blocked slot stays as it is and every open that succeeds reports it |
| `KeySlots.BlockedSlots` | internal/pkg/encryption/encryption.go:361-399 | headers with either kind of blocked slot, beside a handler that can open the volume |
| `KeySlots.LeftoverToken` | internal/pkg/encryption/encryption.go:228-237 | at a header with an unknown token in an empty slot: an open without a failing call reports nothing and misses its goal, and the next one, after a close, reports the slot |
| `KeySlots.Reached` | internal/pkg/encryption/encryption.go:201-259 | what a sync without a failing call leaves is the goal exactly when every slot was repairable |
| `KeySlots.SettledIsSynced` | internal/pkg/encryption/encryption.go:201-259 | when nothing is reported and no token was left over, every handler can unlock the volume and no other slot is occupied |
| `KeySlots.TryNewKey` | internal/pkg/encryption/encryption.go:169-175 | the key is from the first handler that did not fail, and that handler can find it again |
| `KeySlots.FormatAndEncrypt` | internal/pkg/encryption/encryption.go:169-198 | success reaches the state a sync aims at, every handler able to unlock; only a failing call or an empty list of handlers prevents it |
| `KeySlots.NameIn` | internal/pkg/encryption/encryption.go:212-220 | looking a slot up by its decimal name finds it exactly when it is listed |
| `DevicePaths.TransposeInvolution` | internal/pkg/msguid/msguid.go:16-34 | the mixed-endian transposition of a GUID undoes itself |
| `DevicePaths.MarshalDevicePath` | internal/pkg/efivarfs/devicepath.go:272-293 | the loop over a growing buffer prints the nodes in order and the end node, or fails with the first element that has no bytes |
| `DevicePaths.UnmarshalDevicePath` | internal/pkg/efivarfs/devicepath.go:300-358 | the loop over shrinking input is the reference parser, on every byte string |
| `DevicePaths.HardDriveRoundTrip` | internal/pkg/efivarfs/devicepath.go:137-194 | a hard drive element parses back, up to an unknown partition whose tag names a known one |
| `DevicePaths.FilePathRoundTrip` | internal/pkg/efivarfs/devicepath.go:208-241 | a file path parses back, with backslashes as slashes |
| `DevicePaths.ParsedPath` | internal/pkg/efivarfs/devicepath.go:300-358 | whatever bytes a path was parsed from, it is in normal form and marshals into no more bytes than it came from |
| `DevicePaths.PrefixCode` | internal/pkg/efivarfs/devicepath.go:272-358 | a marshalled path followed by any bytes parses to the path in normal form and exactly those bytes, if and only if it has no reserved element |
| `DevicePaths.Reparse` | internal/pkg/efivarfs/devicepath.go:272-358 | a path parsed from arbitrary bytes marshals without error and parses back to itself, before any tail |
| `WireFormat.GuidOnWire` | internal/pkg/msguid/msguid.go:16-34 | the transposition is exactly the byte order of a mixed-endian GUID, in both directions |
| `WireFormat.NodeWritten` | internal/pkg/efivarfs/devicepath.go:50-241 | the bytes printed for an element are exactly those of its layout: header, block numbers, signature and its two tags, or path units with backslashes and a terminator |
| `WireFormat.NodeRead` | internal/pkg/efivarfs/devicepath.go:156-241 | an element is read from exactly the bytes of its layout; tags other than 1/1 and 2/2 stay as they are |
| `WireFormat.PathWritten` | internal/pkg/efivarfs/devicepath.go:272-293 | the printer writes these bytes for a path if and only if they are the layout of its elements, each as long as its length field says, then 7F FF 04 00 |
| `WireFormat.PathRead` | internal/pkg/efivarfs/devicepath.go:300-358 | the parser reads this path and leaves this tail if and only if the bytes are the layouts of its elements, an end node of any length, and the tail |
| `WireFormat.PathRefused` | internal/pkg/efivarfs/devicepath.go:272-293 | a path prints exactly up to its first element without partition, with a null, or too long, and that element decides the error |
| `WireFormat.ReadErrors` | internal/pkg/efivarfs/devicepath.go:300-358 | which error ends the parser, by the bytes that follow the elements read so far |
| `LoadOptions.MarshalLoadOption` | internal/pkg/efivarfs/boot.go:62-114 | refines the layout of the option, with its errors in the order of the code |
| `LoadOptions.UnmarshalLoadOption` | internal/pkg/efivarfs/boot.go:117-173 | the loops over the paths are the reference parser, on every byte string; `WireFormat.OptionRead` says what that reads |
| `WireFormat.OptionWritten` | internal/pkg/efivarfs/boot.go:62-114 | the printer writes these bytes for an option if and only if they are its layout: active is bit 0 and hidden bit 3 of byte 0, the category is byte 1, bytes 2 and 3 are zero, then path length, units, terminator, paths, optional data |
| `WireFormat.OptionRead` | internal/pkg/efivarfs/boot.go:117-173 | for every byte string: the parser returns this option if and only if it is inactive exactly when byte 0 is even, hidden exactly when byte 0 divided by 8 is odd, of category byte 1 modulo 32, its text runs to the first zero byte of the first zero pair from offset 6 on, its paths start three bytes after that pair and are as long as bytes 4 and 5 say, and its optional data is what follows |
| `WireFormat.OptionRefused` | internal/pkg/efivarfs/boot.go:62-114 | which options are not printed, and why, in the order in which the code looks |
| `WireFormat.OptionReadErrors` | internal/pkg/efivarfs/boot.go:117-150 | too short, no zero pair, or paths that overrun the data, each exactly when |
| `LoadOptions.OptionLayout` | internal/pkg/efivarfs/boot.go:62-114 | where attributes, path length, description, paths and optional data lie in the printed bytes |
| `LoadOptions.FriendlyMeaning` | internal/pkg/efivarfs/boot.go:117-140 | a description is friendly when its only two adjacent zero bytes are those at its true end |
| `LoadOptions.ScanLandsOnEnd` | internal/pkg/efivarfs/boot.go:117-140 | the byte scan lands on the true end of the description if and only if the description is friendly |
| `LoadOptions.RoundTrip` | internal/pkg/efivarfs/boot.go:62-173 | printing then parsing gives back the option, up to normal form, if and only if it is faithful |
| `LoadOptions.LostDescriptions` | internal/pkg/efivarfs/boot.go:62-173 | an empty description and one ending outside Latin-1 marshal and do not come back |
| `LoadOptions.DescriptionOfScan` | internal/pkg/efivarfs/boot.go:117-140 | the text before the first two zero bytes has no null, and is friendly exactly when it is a whole number of units |
| `LoadOptions.ParsedOption` | internal/pkg/efivarfs/boot.go:117-173 | an option parsed from any bytes marshals again and is in normal form |
| `LoadOptions.ReparseOption` | internal/pkg/efivarfs/boot.go:62-173 | an option parsed from any bytes is stable under printing and parsing exactly when the scan stopped on a whole number of units |
| `LoadOptions.MarshalBootOrder` | internal/pkg/efivarfs/boot.go:179-187 | the loop prints the entries as little-endian pairs |
| `LoadOptions.UnmarshalBootOrder` | internal/pkg/efivarfs/boot.go:190-203 | the indexed filling of the array reads them back, and refuses odd lengths |
| `LoadOptions.BootOrderInverse` | internal/pkg/efivarfs/boot.go:179-203 | the two are inverse to each other: on every order, and on every byte string of even length |
| `WireFormat.BootOrderOnWire` | internal/pkg/efivarfs/boot.go:179-203 | both directions are two bytes an entry, low byte first |
| `LoadOptions.UniqueBootOrder` | internal/pkg/efivarfs/efivarfs.go:246-261 | the front of the same array ends as the first appearances of what it held |
| `LoadOptions.UniqueOrderMeaning` | internal/pkg/efivarfs/efivarfs.go:246-261 | that result has no duplicates, the same entries in the order of first appearance, is its own result, and survives printing and parsing |
| `BootVariables.Mock.Write` | internal/pkg/efivarfs/mock.go:27-42 | sets one variable of one scope and nothing else |
| `BootVariables.Mock.Delete` | internal/pkg/efivarfs/mock.go:45-57 | removes exactly one variable, and says whether it existed |
| `BootVariables.Mock.Read` | internal/pkg/efivarfs/mock.go:60-71 | the value last written, or not found |
| `BootVariables.Mock.List` | internal/pkg/efivarfs/mock.go:74-80 | the names of the scope, in any order |
| `BootVariables.NameIndex` | internal/pkg/efivarfs/variables.go:56-72 | both spellings of an index match the boot name pattern and give that index back |
| `BootVariables.NameSpelling` | internal/pkg/efivarfs/variables.go:93-134 | the two spellings of an index are Boot and its four digits, from 0123456789ABCDEF and from 0123456789abcdef |
| `BootVariables.IndexSpelling` | internal/pkg/efivarfs/variables.go:53-72 | boot names are Boot and four digits of either table, and these are the digits of the index |
| `BootVariables.GlobalScope` | internal/pkg/efivarfs/variables.go:93-161 | the scope of the boot variables, by its usual notation |
| `BootVariables.GetBootEntry` | internal/pkg/efivarfs/variables.go:122-134 | when the upper-case variable exists its bytes decide, else those of the lower-case one, else the entry does not exist |
| `BootVariables.ListBootEntries` | internal/pkg/efivarfs/variables.go:59-89 | in any order of names: succeeds exactly when for every boot name the upper-case variable of its index, or the lower-case one if that is missing, exists and parses; lists exactly those indices, each with the option parsed from that variable; an error is that of some index |
| `BootVariables.ListingMeaning` | internal/pkg/efivarfs/variables.go:59-89 | the same of the specification functions, without naming the one that reads an entry |
| `BootVariables.LowerCaseListed` | internal/pkg/efivarfs/variables.go:122-134 | a variable spelled in lower case alone, whose bytes parse, is listed under its index |
| `BootVariables.MixedCase` | internal/pkg/efivarfs/variables.go:59-89 | a name of mixed case fails the listing when neither spelling of its index exists, and beside one of them adds no index |
| `BootVariables.MixedCaseAlone` | internal/pkg/efivarfs/variables.go:59-89 | Boot00aB alone fails the listing, whatever it holds |
| `BootVariables.SetBootEntry` | internal/pkg/efivarfs/variables.go:137-144 | writes one upper-case variable, or nothing when the option does not marshal |
| `BootVariables.AddBootEntry` | internal/pkg/efivarfs/variables.go:93-119 | takes the least index below 65535 that no boot variable has, writes a variable that existed in neither case, and leaves all else unchanged; occupied is reported exactly when 0..65534 are all taken |
| `BootVariables.FreeNames` | internal/pkg/efivarfs/variables.go:93-119 | an index without a boot variable has no variable in either spelling |
| `BootVariables.ListAfterAdd` | internal/pkg/efivarfs/variables.go:59-119 | after adding at a free index the next listing succeeds exactly when the old one did and the new bytes parse, and is then the old map plus that entry |
| `BootVariables.AddedIsListed` | internal/pkg/efivarfs/variables.go:59-119 | the entry listed is the entry added, up to normal form, exactly for faithful options |
| `BootVariables.DeleteBootEntry` | internal/pkg/efivarfs/variables.go:147-155 | removes the upper-case variable, else the lower-case one |
| `BootVariables.AddThenDelete` | internal/pkg/efivarfs/variables.go:93-155 | deleting what was added restores the store |
| `BootVariables.SetBootOrder` | internal/pkg/efivarfs/variables.go:159-161 | writes one variable that is no boot entry |
| `BootVariables.GetBootOrder` | internal/pkg/efivarfs/variables.go:164-176 | parses that variable, with an error for a missing one and for an odd length |
| `BootVariables.SetThenGet` | internal/pkg/efivarfs/variables.go:159-176 | what was set is what is read |
| `Follow.AppendKeepsInv` | pkg/follow/follow.go:52-94 | an append by the writer keeps the invariant, also when its event is merged with one already queued |
| `Follow.ReaderKeepsInv` | pkg/follow/follow.go:52-94 | every step of Read keeps the invariant |
| `Follow.NotifierKeepsInv` | pkg/follow/follow.go:122-182 | every step of the notifier keeps the invariant, the dropped signals included |
| `Follow.StepKeepsInv` | pkg/follow/follow.go:52-182 | every step of any participant keeps the invariant |
| `Follow.RunKeepsInv` | pkg/follow/follow.go:52-182 | so does every run |
| `Follow.DeliveredInOrder` | pkg/follow/follow.go:77-93 | in every reachable state what was delivered is the file from the start on, without gap or repetition, and end of file was returned only after a cancellation |
| `Follow.RemovalAfterDelivery` | pkg/follow/follow.go:77-93 | once Read has returned the removal error, every byte appended after the watch was installed and before the removal has been delivered, in every interleaving |
| `Follow.RemovalCompleteIff` | pkg/follow/follow.go:52-182 | for every run up to the installation of the watch and every run from there: when the removal error is about to be returned nothing at all is missing exactly when something was appended between installation and removal, or the reader was not then waiting on unread bytes |
| `Follow.RunKeepsHistory` | pkg/follow/follow.go:77-93 | from the installation on, a reader that was asleep on unread bytes stays so until something fresh is appended, and one that was not has read them whenever it waits |
| `Follow.LostBeforeWatch` | pkg/follow/follow.go:115-172 | a run in which an append before the watch is never signalled and the removal error skips it |
| `Follow.NoLostWakeup` | pkg/follow/follow.go:83-182 | to a reader that waits, not cancelled, with unread bytes appended after the watch, a signal or error is in the slot, the error of a failed watch is about to be, or a write event is queued, if and only if Read has not yet returned that error |
| `Follow.RunKeepsEnding` | pkg/follow/follow.go:122-182 | in every run the error of a failed watch stays in the slot until Read has returned it, the slot stays empty from then on, and a notifier that stopped otherwise saw a cancellation or the removal |
| `Follow.SleepsForEver` | pkg/follow/follow.go:52-94 | a reader that waits after the notifier has stopped, with nothing in the slot, waits in every continuation without a cancellation |
| `Follow.AsleepAfterFailure` | pkg/follow/follow.go:52-182 | a run to that state with fresh data unread, through a failure of the watch |
| `Follow.Wakeup` | pkg/follow/follow.go:83-182 | whenever something is due, the notifier and the reader alone reach new data, or the error of a failed watch |
| `Follow.ReturnMeans` | pkg/follow/follow.go:52-94 | a step ends at most one call, and each way of returning has its reason: data no longer than the buffer, a cancellation, the error that was in the slot, a closed reader, a failed source |
| `Follow.StepTouches` | pkg/follow/follow.go:52-182 | what each step leaves alone |
| `Follow.ReaderChoices` | pkg/follow/follow.go:52-94 | in every state exactly which steps a call can take: a closed reader is refused, a cancelled one returns before it reads, it waits only at the end of the file, and a wait ends with the slot or a cancellation |
| `Follow.NotifierNeverBlocks` | pkg/follow/follow.go:141-172 | whenever it watches and an event is queued the notifier takes it, and leaves a full slot as it is |
| `Follow.ClosedForEver` | pkg/follow/follow.go:52-113 | once closed and idle, in every continuation every call returns the closed-pipe error and nothing is delivered |
| `Follow.CancelledForEver` | pkg/follow/follow.go:71-76 | once cancelled and before it reads, in every continuation a call returns end of file and delivers nothing |
| `Streams.MainKeepsInv` | internal/app/debug/container_streams.go:48-150 | every step of stream keeps the invariant |
| `Streams.SenderKeepsInv` | internal/app/debug/container_streams.go:205-233 | every step of sendLoop keeps the invariant |
| `Streams.ReceiverKeepsInv` | internal/app/debug/container_streams.go:152-203 | every step of recvLoop keeps the invariant |
| `Streams.RunKeepsInv` | internal/app/debug/container_streams.go:48-233 | so does every run of the three goroutines, the container and the client |
| `Streams.ExclusiveSend` | internal/app/debug/container_streams.go:48-150 | in no reachable state are two goroutines inside Send |
| `Streams.ExitCodeIsLast` | internal/app/debug/container_streams.go:48-150 | at most one exit code is sent and no message follows it; it lies in the signed 32-bit range and differs from the container's code by a multiple of 2^32, so a code below 2^31 is sent unchanged |
| `Streams.ReturnMeans` | internal/app/debug/container_streams.go:48-150 | however stream returns, both pipes are closed and its context is cancelled, and the result says what happened |
| `Streams.OutputInPieces` | internal/app/debug/container_streams.go:205-233 | in every reachable state no message is empty or longer than 512 bytes |
| `Streams.SendErrorHasCause` | internal/app/debug/container_streams.go:205-233 | in every run without a failed read of stdout or a failed Send the send loop ends quietly and is no error of stream |
| `Streams.RecvErrorHasCause` | internal/app/debug/container_streams.go:152-203 | likewise the receive loop, without a failed receive and a failed write to stdin |
| `Streams.SelectServes` | internal/app/debug/container_streams.go:71-146 | the select serves whatever is ready; a quiet report leaves it selecting without that channel, an error returns |
| `Streams.SendLoopServes` | internal/app/debug/container_streams.go:205-233 | what the send loop can do in each of its states |
| `Streams.ReceiveLoopServes` | internal/app/debug/container_streams.go:152-203 | what the receive loop does in each of its states: stdin data are written whole, a control message changes nothing, the end of the loop closes stdin |
| `Streams.WaitsServe` | internal/app/debug/container_streams.go:78-148 | each wait ends with the report of the loop it waits for, and goes on to the next wait that is due |
| `Streams.OutputIsPrefix` | internal/app/debug/container_streams.go:205-233 | the stdout messages concatenate to a prefix of what the container wrote, and to all the pipe accepted when the exit code was sent and no Send failed |
| `Streams.InputIsPrefix` | internal/app/debug/container_streams.go:152-203 | what the container read is a prefix of what the client sent |
| `Streams.CleanReturn` | internal/app/debug/container_streams.go:48-150 | success has sent the exit code, and neither success nor cancellation leaves a goroutine behind |
| `Streams.StuckForEver` | internal/app/debug/container_streams.go:48-150 | once stream has returned, in every continuation, a loop that has not ended never does, and one that is reporting stays in its report |
| `Streams.RunKeepsJoining` | internal/app/debug/container_streams.go:48-150 | in every run a loop has ended exactly when stream has taken its report, and both pipes are closed once the select is left |
| `Streams.OutlivesExactly` | internal/app/debug/container_streams.go:48-150 | for every result, both channel variables and every continuation, exactly which of the two loops has ended |
| `Streams.Finishes` | internal/app/debug/container_streams.go:48-233 | once the container has ended or the client has left, stream and its loops get, without a step of the container or the client, to the return or to the wait for the client after the exit code; to the return if the client has left |
| `Streams.CanReturn` | internal/app/debug/container_streams.go:48-233 | so from every reachable such state |
| `Streams.WaitsForClient` | internal/app/debug/container_streams.go:100-103 | in that wait stream stays, in every run in which the client neither leaves, closes its side nor sends input |
| `Streams.ClientActReturns` | internal/app/debug/container_streams.go:100-105 | as soon as the client does one of these, stream and its loops alone reach a return, with success |
| `Streams.StatusErrorLeaks` | internal/app/debug/container_streams.go:48-150 | a run to that state, through a failed exit status |
| `CgroupTree.Tree.Child` | internal/pkg/cgroups/cgroups.go:22-44 | creates a child in place when it is missing; no node moves, and the tree stays a tree of distinct nodes |
| `CgroupTree.Tree.SetProperty` | internal/pkg/cgroups/cgroups.go:163-306 | sets one property of one node, and changes no other node |
| `CgroupTree.Tree.Find` | internal/pkg/cgroups/cgroups.go:22-44 | the node found is the one of the normalised path, so equal paths give the same node and distinct ones distinct nodes; earlier nodes stay where they are, and the flat map gains only the path's own prefixes |
| `CgroupTree.NormalPrefix` | internal/pkg/cgroups/cgroups.go:22-44 | the path ends before the first empty or "." component |
| `CgroupTree.NormaliseMeaning` | internal/pkg/cgroups/cgroups.go:22-44 | a normalised path is the longest run of parts at the front of which none is empty or a single dot |
| `CgroupTree.TreeFromTar` | internal/pkg/cgroups/tar.go:18-56 | the heap tree after any sequence of archive entries is the flat map built from them, and it fails exactly when that does |
| `CgroupTree.EntryName` | internal/pkg/cgroups/tar.go:18-56 | a file at any proper path, with slashes between: the components before the last are its directory, and the last is its name |
| `CgroupTree.LastValueWins` | internal/pkg/cgroups/tar.go:18-56 | a node exists exactly when it is on the way to a regular file, and each property holds the value parsed last under any spelling of its path |
| `CgroupRename.RenameKeepsNodes` | internal/pkg/cgroups/cgroups.go:66-75 | renaming conserves the nodes |
| `CgroupRename.RenameKeepsSeparate` | internal/pkg/cgroups/cgroups.go:66-75 | and keeps the tree a tree |
| `CgroupRename.RenameIdempotent` | internal/pkg/cgroups/cgroups.go:66-75 | renaming a renamed tree changes nothing, and it meets the conditions again |
| `CgroupRename.RenamedRoutes` | internal/pkg/cgroups/cgroups.go:66-75 | every node of the tree stands, after the renaming, at its path with each component replaced by its new name if it has one |
| `CgroupRename.RouteBefore` | internal/pkg/cgroups/cgroups.go:66-75 | and every path of the renamed tree comes from one of the old tree in this way, with the same node |
| `MapRange.ProduceKeepsNamed` | internal/pkg/cgroups/cgroups.go:66-75 | moving one entry, in any order, leaves every child in the map once, under its name of the moment |
| `MapRange.ScheduleRenames` | internal/pkg/cgroups/cgroups.go:66-75 | under both conditions every schedule of a range, revisits of inserted entries included, ends in the pure renaming |
| `MapRange.ChainGoesWrong` | internal/pkg/cgroups/cgroups.go:66-75 | an entry whose new name is renamed again has a schedule that ends otherwise |
| `MapRange.EveryOrderIff` | internal/pkg/cgroups/cgroups.go:66-75 | every schedule ends in the pure renaming if and only if siblings get different names and no new name is renamed again |
| `MapRange.RenamedMeaning` | internal/pkg/cgroups/cgroups.go:66-75 | the pure renaming, said with the name map alone: an entry in it stands under its new name, any other under its old one, and nothing else is there |
| `MapRange.WhyTheConditions` | internal/pkg/cgroups/cgroups.go:66-75 | a chain and a collision that go wrong, and a map with a fixed name and an idle chain that does not |
| `CgroupRename.RenameEntry` | internal/pkg/cgroups/cgroups.go:66-75 | the turn of an entry that was there: it and all below it get their new names, its siblings are untouched |
| `CgroupRename.RevisitEntry` | internal/pkg/cgroups/cgroups.go:66-75 | the turn of an entry that the range itself inserted changes nothing |
| `CgroupRename.ResolveNames` | internal/pkg/cgroups/cgroups.go:66-75 | every iteration order, with any number of revisits of inserted entries, ends in the pure renaming of the tree, when at every node siblings get different names and no new name is renamed again |
| `CgroupRename.ResolveTree` | internal/pkg/cgroups/cgroups.go:47-49 | so does renaming a tree that Find built, with every node conserved |
| `CgroupWalks.ExecuteRenames` | internal/pkg/cgroups/cgroups.go:66-75 | under the conditions every run over a tree, with its orders and revisits at every node, ends in the pure renaming |
| `CgroupWalks.FollowSchedule` | internal/pkg/cgroups/cgroups.go:66-75 | every schedule of the range over one node is part of a complete run |
| `CgroupWalks.KidGoesWrong` | internal/pkg/cgroups/cgroups.go:66-75 | a run that goes wrong below a child is part of one that goes wrong over the whole tree |
| `CgroupWalks.EveryRunIff` | internal/pkg/cgroups/cgroups.go:66-75 | every run over a tree ends in its pure renaming if and only if, at every node, siblings get different names and no new name is renamed again |
| `CgroupRename.ShapeNodes` | internal/pkg/cgroups/cgroups.go:22-44 | the shape of a built tree has exactly the nodes of its flat map |
| `CgroupValues.RoundTrip` | internal/pkg/cgroups/value.go:30-135 | parsing the printed value gives it back exactly for "max" in its one form, every set non-negative value with any fraction length, and a negative value with fewer fraction digits than characters |
| `CgroupValues.TextMeaning` | internal/pkg/cgroups/value.go:30-49 | the text is `unset`, `max`, or the decimal numeral with the point before the last fraction digits and zeros in front where there are too few |
| `CgroupValues.ParseMeaning` | internal/pkg/cgroups/value.go:115-135 | what parses, and into what: `max`, or an integer with at most one point put into it, whose fraction length is what follows the first point |
| `CgroupValues.ParseShown` | internal/pkg/cgroups/value.go:30-135 | the point printed is the point found: digits and fraction length are recovered whatever the value |
| `CgroupValues.ParsePadded` | internal/pkg/cgroups/value.go:30-49 | zero padding before the point changes no non-negative number, and hides the sign of a negative one |
| `CgroupValues.UnstableNegative` | internal/pkg/cgroups/value.go:30-135 | "-0.05" parses and does not survive |
| `Protofile.LineShape` | pkg/makefs/protofile.go:52-121 | the text printed for an entry is its words, joined by blanks and indented |
| `Protofile.Collect` | pkg/makefs/protofile.go:126-172 | sockets are skipped, the order is kept, and a space in a kept name is an error |
| `Protofile.WalkTree` | pkg/makefs/protofile.go:126-226 | writes files before directories at each level and closes every directory below the root by one dollar sign; it fails exactly for a space in a kept name or an unreadable link anywhere in the tree |
| `Protofile.GenerateProtofile` | pkg/makefs/protofile.go:22-49 | the whole file, with its header; it succeeds exactly for a directory with an acceptable tree; `ProtofileMeaning.EntriesRecovered` says what the text means, entry by entry |
| `ProtofileParsing.ModeRoundTrip` | pkg/makefs/protofile.go:52-91 | kind, set-id bits and permissions are read back from the mode word |
| `ProtofileParsing.LexProto` | pkg/makefs/protofile.go:22-49 | the words of the output are those of the header, of the entries in order, and of one closing dollar sign |
| `ProtofileParsing.ParseKids` | pkg/makefs/protofile.go:126-226 | the stack parser consumes exactly the words of a directory's entries and rebuilds them in the innermost open directory |
| `ProtofileParsing.Invertible` | pkg/makefs/protofile.go:22-226 | the reader recovers the tree, sockets dropped and files before directories, if and only if every name and link target is one word, no name is a dollar sign, every kind has its letter, and the path is one word where a file needs it |
| `ProtofileMeaning.ModeLetters` | pkg/makefs/protofile.go:52-91 | the letters of kind and set-id bits, and three octal digits of the permissions |
| `ProtofileMeaning.EntriesRecovered` | pkg/makefs/protofile.go:22-226 | reading the text back, at any depth: the entries of the source and the nodes of the reader describe each other, with name, kind, bits, device numbers in decimal, link target, and files before subdirectories in the order of the source |
| `ProtofileMeaning.ContentPath` | pkg/makefs/protofile.go:94-176 | the content of a regular file, at any depth, is taken from the source path followed by one slash and a name for each directory on the way and for the file |
| `ProtofileMeaning.WholeFile` | pkg/makefs/protofile.go:22-226 | the whole text for a directory with a set-uid file, a link, a socket, and a set-gid directory that holds a device |
| `ProtofileParsing.CleanIsWalkable` | pkg/makefs/protofile.go:126-226 | whatever the reader can tell apart the writer accepts |
| `ProtofileParsing.DollarName` | pkg/makefs/protofile.go:126-226 | the converse fails: the writer accepts a tree that the reader cannot recover |
| `DnsManager.Supervisor.Add` | internal/pkg/dns/manager.go:105-105 | a service gets a token that was never used |
| `DnsManager.Supervisor.RemoveAndWait` | internal/pkg/dns/manager.go:118-121 | a removal without error stops exactly that service, one with an error may or may not |
| `DnsManager.Manager.StartRequested` | internal/pkg/dns/manager.go:90-111 | one result a request, running for what ran or was just created, new otherwise; old runners are untouched |
| `DnsManager.Manager.RemoveOthers` | internal/pkg/dns/manager.go:113-128 | in any map order, each runner that is not preserved is stopped once and forgotten; a consumer that breaks off leaves the last one in the map |
| `DnsManager.Manager.RunAll` | internal/pkg/dns/manager.go:86-130 | once the iterator is consumed the runners are exactly the requested pairs that ran before, on their old tokens, or were created; every other old runner was stopped once and reported; a consumer that breaks off among the requests has started what was reported and stopped nothing; if no removal failed, supervisor and map agree afterwards exactly when nobody broke off at a removal |
| `DnsManager.Manager.ClearAll` | internal/pkg/dns/manager.go:150-189 | every runner is stopped once and forgotten; the errors are exactly the failures other than a stopped supervisor and a timeout; a dry run does nothing |
| `ArgsMerge.Compact` | pkg/argsbuilder/argsbuilder_args.go:74-89 | the in-place loop leaves, at the front of the array it reads from, the trimmed values in order of first appearance |
| `ArgsMerge.MergeAdditive` | pkg/argsbuilder/argsbuilder_args.go:68-106 | the two loops compute the union of the two lists of values |
| `ArgsMerge.UnionMeaning` | pkg/argsbuilder/argsbuilder_args.go:68-106 | the union has no duplicates, exactly the trimmed values of both, the existing ones first and in order, and joining and splitting the result loses nothing |
| `ArgsMerge.MergeListsMeaning` | pkg/argsbuilder/argsbuilder_args.go:68-106 | the one string left holds each value once that stands, trimmed, between the commas of either list, the existing ones first, in order of first appearance |
| `ArgsMerge.MergeValueMeaning` | pkg/argsbuilder/argsbuilder_args.go:46-106 | what each policy leaves under a key, by slices |
| `ArgsMerge.TokensConcat` | pkg/argsbuilder/argsbuilder_args.go:68-106 | it does not matter where the values are cut into strings |
| `ArgsMerge.MergeTwice` | pkg/argsbuilder/argsbuilder_args.go:68-106 | merging v and then w equals merging v ++ w |
| `ArgsMerge.MergeIdempotent` | pkg/argsbuilder/argsbuilder_args.go:68-106 | merging the same values again changes nothing |
| `ArgsMerge.Args.Merge` | pkg/argsbuilder/argsbuilder_args.go:34-111 | fails exactly when a key to be merged is denied; otherwise, whatever the map order, each key is merged under its policy (replaced, appended, put in front, or united), by replacement if it has none, and all other keys stay; after a failure some of the other keys are merged |
| `NodesMatching.NodesMatch` | pkg/cluster/cluster_chubo.go:89-120 | for any map order nil means a bijection with intersecting addresses, an error that the pairs chosen leave a node over; nil is returned when no order can go wrong; where expected nodes that share an actual node share all, it is returned if and only if a bijection exists |
| `NodesMatching.IntersectsMeaning` | pkg/cluster/cluster_chubo.go:89-120 | two nodes intersect exactly when they have an address in common |
| `NodesMatching.AtMostOneIsBlocks` | pkg/cluster/cluster_chubo.go:89-120 | that condition covers the case in which each expected node intersects at most one actual node |
| `NodesMatching.Exchange` | pkg/cluster/cluster_chubo.go:96-112 | whichever free node the greedy step takes, some bijection agrees with all its choices so far |
| `NodesMatching.StuckIff` | pkg/cluster/cluster_chubo.go:96-112 | some order gets stuck exactly when all the actual nodes of one expected node can be given, one each, to earlier expected nodes that intersect them |
| `NodesMatching.StarvesSticks` | pkg/cluster/cluster_chubo.go:96-112 | such a gift is completed to a run that gets stuck |
| `NodesMatching.NilForEveryOrder` | pkg/cluster/cluster_chubo.go:89-120 | nil is returned for every order exactly when there are as many nodes as expected and no expected node can be starved |
| `NodesMatching.OrderOfListMatters` | pkg/cluster/cluster_chubo.go:89-120 | nodes that share unevenly and match in every order |
| `NodesMatching.GreedyCanMiss` | pkg/cluster/cluster_chubo.go:89-120 | nodes with a bijection on which some order gets stuck |
| `Decimal.ParseFormat` | internal/pkg/encryption/encryption.go:212-243 | a 64-bit number reads back from its decimal form |
| `Decimal.ParseIntMeaning` | internal/pkg/cgroups/value.go:115-135 | what parses: an optional sign and a numeral, zeros in front allowed, within 64 bits |
| `Decimal.NumeralDigits` | internal/pkg/cgroups/value.go:30-49 | the numeral of a number, digit by digit |
| `Text.SplitJoin` | pkg/argsbuilder/argsbuilder_args.go:68-106 | splitting undoes joining when no part has the separator |
| `Text.JoinSplit` | pkg/argsbuilder/argsbuilder_args.go:68-106 | joining undoes splitting |
| `Text.TrimMeaning` | pkg/argsbuilder/argsbuilder_args.go:74-98 | trimming takes away exactly the white space at both ends |
| `Distinct.FirstAppearancesOrder` | internal/pkg/efivarfs/efivarfs.go:246-261 | deduplication keeps the elements in the order of their first appearance |
| `Binary.EncodeDecode` | internal/pkg/efivarfs/efivarfs.go:45-48 | bytes of even length are recovered from their 16-bit units |

## Left out

- KeySlots.Open: requires distinct handler slots and a volume that is not open; on an open one the code dereferences a nil key (internal/pkg/encryption/encryption.go:116-152).
- KeySlots.GetKey: sealing, KMS, TPM, salts and system information are reduced to who sealed a blob and what is in it; timeouts, retries and logging are a failure at any call.
- KeySlots.Device.RemoveKey: whether the provider keeps or drops the token of a removed key is left open, as the LUKS library is not part of this model.
- KeySlots.Device.Tear: a failed header update is assumed to damage at most the slot it was aimed at.
- Path strings and the JSON of tokens are not modelled; a token that does not decode is one more failing call.
- Text is sequences of 16-bit units (a trailing single byte is the replacement character); surrogate pairs are not interpreted.
- The file-system backed variable store, `ReadLoaderDevicePartUUID` and `SetBootNext` add no logic to the mock store.
- Follow: the kernel queue delivers the events of one file in order and without loss once the watch is installed, each event carries one operation, the file only grows, and one goroutine reads; the reader is a transition system and not a class, because its steps interleave.
- Streams: gRPC and the pipes are abstract, a Send under way returns, a control message has no effect unless it fails and ends the receive loop, and fairness (that every enabled goroutine runs eventually) is not assumed, so progress is the existence of a run.
- CgroupTree.Tree.SetProperty: property values are abstract, so the list, flat and nested value parsers and the file-name table of `Node.Parse` are not modelled.
- CgroupRename.ResolveTree: states the renamed tree as a shape; the path index of the tree object is not rebuilt, as the code has none.
- CgroupRename.ResolveNames: takes the shape of the tree as a ghost argument; that its conditions are necessary is proved on shapes (`CgroupWalks.EveryRunIff`), not on the heap.
- Floating-point helpers of cgroup values (`DivideBy`, `Float64`, humanised sizes) are not modelled.
- Protofile.WalkTree: the source path is taken to be in clean form and neither `/` nor `.`; a source path that is itself a symbolic link, the sticky bit, and read errors other than an unreadable link are not modelled; owner and group are always 0, as in the code.
- DnsManager.Manager.RunAll: whether a runner can be created is arbitrary, and so is the consumer's decision to break off; upstreams, node resolving, caches and serving are not modelled.
- ArgsMerge.Args.Merge: lists are values, so the copies the code makes to avoid aliasing have no counterpart; rendering of arguments and `MustMerge` are not modelled.
- NodesMatching.NodesMatch: errors carry the nodes left over, not the formatted message.
- Cloud uploaders, imager, dashboard, provisioners and other input/output plumbing are outside the model.
