# A verified model of the one-time-pad transport

The repository keeps a book of 64-byte pad segments on disk, hands each segment out at most once across crashes, and
builds two-party sessions on what it hands out: a full one-time-pad data pump, and a handshake followed by an
authenticated session. This project models that core in Dafny and proves what each part promises over every run.

Two kinds of files work together. A module of functions says what a component is (`AllocatorRuns`, `PumpSpec`,
`SessionSpec`, `HandshakeSpec`, `LinkRuns`); a module with a class or methods does it in place, as the source does
(`Allocator`, `Pump`, `Session`, `Handshake`, `Loopback`), each method proved to have exactly the effect the functions
give. The theorems over whole runs are about the functions, so they hold of the classes.

| files | part |
|---|---|
| `AnchorSpec`, `AllocatorRuns`, `Allocator`, `Book`, `Recovery` | the two-copy anchor, the allocator's transaction, recovery |
| `Pad`, `Wire`, `Record`, `RecordAuth`, `PumpSpec`, `Pump`, `PumpRuns`, `PumpPair`, `PadUse`, `PadTouch`, `BookUse`, `BookSource` | the one-time-pad pump |
| `SessionSpec`, `Session` | the authenticated session |
| `Message`, `Codec`, `Cursor` | the canonical message codec |
| `HandshakeSpec`, `Handshake`, `HandshakeRun`, `HandshakeWorld`, `HandshakeFailure` | the handshake |
| `Framing`, `LinkRuns`, `Loopback` | framing over the bounded in-process pipe |
| `Observer`, `Civil`, `Lease` | version observer, calendar, write leases |
| `Layouts` | every wire format byte by byte, and what its decoder refuses |
| `Bytes`, `Types` | shared integers, bytes and roles |

Assumptions, each stated where it is used:

- **Media.** Each anchor copy has a cached and a durable content. A write lands whole, not at all, or torn, and a torn
  copy does not decode. A sync makes the cached content durable or fails, and after a failure either content may be the
  durable one. A kill keeps the cached contents; a power loss keeps either content of each copy; the system may make a
  cached content durable at any time. One process has the book, and the book does not change. Media and readers marked
  reliable never fail; what a method owes when nothing fails is stated for them.
- **Cryptography.** The digest, the one-time authenticator and the authenticated cipher are function parameters.
  `AddsTag` says a sealed text is 16 bytes longer; a text longer than `longest` is refused, and a confirm body is not;
  `Undoes` says opening undoes sealing. `Unforged` and `NothingForged` say, input by input, that bytes a receiver is fed
  and that open were sealed before under just that key, nonce and associated data; they say nothing of bytes nobody
  feeds it, so a cipher can satisfy them along with `Undoes` (`SessionSpec.UntamperedChannelDeliversAll`).
  `RecordAuth.Unforged` says the same of the one-time authenticator: a frame a pump would accept was authenticated
  before, as just those bytes, under just that key; a channel that only replays, reorders, drops or reflects frames
  satisfies it whatever the authenticator is (`RecordAuth.ChannelIsUnforged`). A theorem that needs one of these names it.
- **Environment.** Randomness, the clock and the other end's turns are inputs. The clock of the leases never goes back.

Where the code and its own description differ, or a natural reading of a promise fails, the model follows the code:

- The pump says every receive error closes it, but a frame that does not decode is returned through `?` and leaves the
  pump open and unchanged (`PadUse.ErrorClosesUnlessWireFormat` gives the exact split).
- The pump's account of a direction and what was delivered part ways on one record only: the one that arrives when the
  receive counter is at its last value, in sequence and properly sealed. It is opened, charged and then withheld
  (`PadUse.ReceiveAccounts`; `PadUse.LastRecordIsWithheld` shows every such record).
- After a reservation that starts from an allocator neither of whose durable copies has caught up with its memory, the
  pointer recovered after a power loss can be below the pointer before the reservation (never inside the range, and
  never at or below a segment already handed out). It takes a kill between the write and the sync of a repair, followed
  by a start that finds two equal copies and syncs neither. `AllocatorRuns.RangeIsWholeIff` says that this condition is
  exact, and `AllocatorRuns.UnsyncedRepairIsReachable` exhibits the run; no segment is reused even then.
- A frame with an empty payload passes the sender's checks, but the receiver asks the pipe for zero bytes. If nothing
  follows the frame, a receiver told of the end reports it as malformed, and one that waits drops it at the deadline
  (`LinkRuns.ReceiveFromQuietSenderFailsIff`, with a run of each kind). Every protocol message has a payload, and
  frames with one are never lost this way (`LinkRuns.FramesWithPayloadAreNeverLost`).
- The handshake says every failure burns the session keys, but starting again after the confirm went out fails the
  client and keeps them. `HandshakeFailure.KeysOutliveFailureIff` says that this is the only way, and that any later
  input other than another start closes the session; a failed machine never sends or establishes either way.

## Model

| member | source | states |
|---|---|---|
| `AnchorSpec.EncodeRecord` | crates/otp-anchor-spec/src/lib.rs:125-145 | Filling the 128-byte buffer in place and appending it yields the reference encoding, after whatever was there |
| `AnchorSpec.DecodeOfEncoded` | crates/otp-anchor-spec/src/lib.rs:125-202 | A record survives encoding then decoding if it is canonical, and is refused otherwise |
| `AnchorSpec.EncodedOfDecode` | crates/otp-anchor-spec/src/lib.rs:147-202 | Accepted bytes decode to a canonical record and are exactly its encoding |
| `Layouts.AnchorLayout` | crates/otp-anchor-spec/src/lib.rs:125-145 | The 104 bytes of a record, field by field, the digest over the first 72 last |
| `Layouts.AnchorRefusals` | crates/otp-anchor-spec/src/lib.rs:147-202 | Why bytes are not a record: the first check they fail |
| `AnchorSpec.DecideCharacterized` | crates/otp-anchor-spec/src/lib.rs:204-248 | Two readable copies of one book are consistent iff equal, the higher is adopted iff the other lies strictly below it, and they are incomparable otherwise |
| `AnchorSpec.DecideRefuses` | crates/otp-anchor-spec/src/lib.rs:204-248 | Which copy is quarantined, or why nothing can be proved, for every pair of readings |
| `AnchorSpec.StateCmpMeans` | crates/otp-anchor-spec/src/lib.rs:78-80 | Records are ordered by generation, then initial before intent before commit |
| `AllocatorRuns.NextKeepsInv` | crates/otp-book/src/allocator.rs:209-430 | Every step of open, persist, read, hand-out, write fault, sync fault, kill, power loss and flush keeps the invariant on both copies, the process and the indices handed out |
| `AllocatorRuns.RunKeepsInv` | crates/otp-book/src/allocator.rs:209-430 | The invariant holds in every state of every run |
| `AllocatorRuns.NoSegmentHandedOutTwice` | crates/otp-book/src/allocator.rs:256-365 | Over every run the indices handed out strictly increase, and the test kit's oracle accepts them |
| `AllocatorRuns.OracleAcceptsIncreasing` | crates/otp-testkit/src/lib.rs:151-162 | The oracle accepts exactly the increasing sequences that start at or after its pointer |
| `AllocatorRuns.OpenSucceedsIff` | crates/otp-book/src/allocator.rs:215-238 | Opening succeeds iff both copies are readable, of this book and comparable, and the higher has a pointer within the book and, if a commit, the digest of the segment before it; it then adopts the higher and repairs the strictly lower; which refusal otherwise |
| `AllocatorRuns.UntornCrashStatesReopen` | crates/otp-book/src/allocator.rs:215-254 | In any reachable state with two readable copies opening succeeds, on the higher record, beyond everything handed out, repairing the lower copy |
| `AllocatorRuns.TornCopyRefuses` | crates/otp-book/src/allocator.rs:215-246 | In every state of every run opening is refused iff a copy is torn, and then as corrupt, never for another reason |
| `AllocatorRuns.BodyReadOnlyAfterIntentDurable` | crates/otp-book/src/allocator.rs:271-345 | Whenever a body is being read, all four contents of the two copies are the intent whose pointer is past the whole reservation |
| `Allocator.TransactionCore.ReadBody` | crates/otp-book/src/allocator.rs:277-283 | The only way issuing reads a body: inside a reserved range, with both copies durably past it |
| `AllocatorRuns.HandOutIsDurable` | crates/otp-book/src/allocator.rs:286-300 | When indices are handed out, both copies durably hold one commit record whose pointer is one past the last index, and reopening finds them consistent |
| `AllocatorRuns.WholeRangeOrNothing` | crates/otp-book/src/allocator.rs:302-365 | From the start of a reservation to the start of the next, through all faults and restarts, no surviving record points inside the range; if all surviving records pointed at its beginning, they keep pointing at its beginning or its end |
| `AllocatorRuns.RecoveredPointerIsOutside` | crates/otp-book/src/allocator.rs:215-246 | A later start succeeds iff no copy is torn, on a pointer past the range or at most at its beginning, and exactly at its beginning unless the pointer could fall back when it started |
| `AllocatorRuns.RangeIsWholeIff` | crates/otp-book/src/allocator.rs:215-365 | Over all runs of a reservation, every later start recovers the old pointer or the one past the range, iff some durable copy had caught up when it started |
| `AllocatorRuns.PointerFallsBackIff` | crates/otp-book/src/allocator.rs:237-245 | A power loss can recover a pointer below the one in memory iff both durable copies are behind it |
| `AllocatorRuns.UnsyncedRepairIsReachable` | crates/otp-book/src/allocator.rs:237-245 | A concrete run from the initial state reaches such a state |
| `Allocator.PersistOne` | crates/otp-book/src/allocator.rs:421-430 | A write and a sync, in place, are two steps of the machine on that copy |
| `Allocator.TransactionCore.PersistPair` | crates/otp-book/src/allocator.rs:367-410 | The loop over the copies takes the machine through all four disk steps, or leaves it halted |
| `Allocator.TransactionCore.Issue` | crates/otp-book/src/allocator.rs:256-300 | Success returns the segment at the old pointer, moves the pointer by one and leaves the commit durable in both copies; each error, when it occurs and what it leaves; nothing is handed out on error; on reliable media it succeeds iff the allocator is not halted, a segment is left and the generation has a successor |
| `Allocator.TransactionCore.ReserveRange` | crates/otp-book/src/allocator.rs:311-365 | The same for a range: the concatenated bodies of exactly the range, when the range is invalid or exhausted, a failed read that burns the whole range, and exactly when it succeeds on reliable media |
| `Allocator.TransactionCore.HandsOutInOrder` | crates/otp-book/src/allocator.rs:256-365 | Whatever was called on the allocator and whatever failed, here or before, all it handed out strictly increases and the oracle accepts it |
| `Allocator.TransactionCore.ReadBodies` | crates/otp-book/src/allocator.rs:331-345 | The extending loop returns the bodies of the whole range in order, or fails |
| `Allocator.Open` | crates/otp-book/src/allocator.rs:209-254 | Opening adopts what the two cached copies justify, a record of this book that points into it and, if a commit, carries the digest of the segment before its pointer; with any other copies, a commit of another digest among them, it fails and the media are untouched; it writes only when a copy is stale; on reliable media it succeeds iff the copies are startable, and is refused with just their reason |
| `Book.FlatSegment` | crates/otp-book/src/allocator.rs:331-345 | Segment i of a flat range is at offset 64 times i |
| `Recovery.RecoverWithOptions` | crates/otp-recovery/src/lib.rs:89-178 | Success leaves the adopted record in both stores having written only the stale one, once; a refusal that is not a store error leaves both untouched; a store error leaves only the stale copy as a write of the adopted record may; reliable stores give exactly the specified choice |
| `Recovery.RecoverySucceedsIff` | crates/otp-recovery/src/lib.rs:89-145 | Recovery succeeds iff both copies read, belong to one book, are comparable, and the higher passes watermark and verifier |
| `Recovery.RecoveryRefuses` | crates/otp-recovery/src/lib.rs:89-145 | Each reason for refusing is given exactly when it holds: the one bad copy, both bad, different books, equal order but different bytes, contradictory order, watermark, book |
| `Recovery.AdoptedIsHighest` | crates/otp-recovery/src/lib.rs:89-178 | The adopted record is one of the two, behind neither in order or pointer, and the copy repaired is the strictly lower one |
| `Recovery.RecoverThenOpenIsOpen` | crates/otp-recovery/src/lib.rs:89-178 | Recovering and then opening adopts the same record, or refuses for the same reason, as opening alone |
| `Recovery.SecondRecoveryWritesNothing` | crates/otp-recovery/src/lib.rs:89-178 | After a recovery the copies are equal and a second one adopts the same record and repairs nothing |
| `Recovery.RecoveryOfReachableStates` | crates/otp-recovery/src/lib.rs:89-178 | In every state the allocator can leave, recovery succeeds iff neither copy is torn, beyond everything handed out |
| `Recovery.RecoveryIsARun` | crates/otp-recovery/src/lib.rs:138-170 | Whatever a recovery does to the disk, finished, failed or cut short, is a run of opening and crashing steps that hands nothing out |
| `Recovery.RecoveryNeverReusesASegment` | crates/otp-recovery/src/lib.rs:89-178 | Over runs that mix the allocator, crashes and recoveries, the indices handed out strictly increase |
| `Wire.EncodeInto` | crates/otp-fullotp/src/wire.rs:71-84 | The in-place encoder appends exactly the reference encoding |
| `Wire.DecodeOfEncode` | crates/otp-fullotp/src/wire.rs:113-182 | A data record survives encode then decode iff its offset and lengths are within bounds |
| `Wire.EncodeOfDecode` | crates/otp-fullotp/src/wire.rs:137-182 | Accepted bytes are within bounds and are the encoding of what they decode to |
| `Layouts.DataFrameLayout` | crates/otp-fullotp/src/wire.rs:113-135 | The 34 bytes before the ciphertext and the 16 after it, field by field |
| `Layouts.DataFrameRefusals` | crates/otp-fullotp/src/wire.rs:137-182 | What the decoder refuses, in its order and by the numbers, and that it accepts everything else |
| `Layouts.MacInputLayout` | crates/otp-fullotp/src/record.rs:53-62 | The authenticated bytes are the ASCII separator, its length 25 in two bytes, header and ciphertext |
| `Pad.PadStream.TakeMacKey` | crates/otp-fullotp/src/pad.rs:123-132 | Returns the 32 bytes at the cursor and zeroes exactly those; the cursor stays |
| `Pad.PadStream.XorBurnPad` | crates/otp-fullotp/src/pad.rs:135-143 | The XOR-and-zero loop flips the bits of the data exactly where the pad bytes from 32 past the cursor have a one, and zeroes exactly that pad |
| `Pad.PadStream.RetireInto` | crates/otp-fullotp/src/pad.rs:152-159 | The stream becomes the next one and reports what the old one had consumed |
| `Pad.BurnInTwo` | crates/otp-fullotp/src/pad.rs:123-150 | Taking the key and then the pad burns what spending one record burns, and the pad is not touched by taking the key |
| `Bytes.BitOfXor` | crates/otp-fullotp/src/pad.rs:135-143 | A bit of the exclusive-or differs from the data's exactly where the pad's bit is one |
| `Bytes.OnePad` | crates/otp-fullotp/src/pad.rs:135-143 | For two texts of one length exactly one pad turns the first into the second: their exclusive-or |
| `Record.SealRecord` | crates/otp-fullotp/src/record.rs:86-131 | Seals iff the plaintext is non-empty and fits; the ciphertext is the plaintext with the bits flipped where the stream's bytes from 32 past the cursor have a one; spends exactly the key and the pad of the record, and leaves the stream alone on refusal |
| `Record.OpenRecord` | crates/otp-fullotp/src/record.rs:155-207 | In place, the outcome and the stream of the specified opening: checks first, pad spent only once they pass; the plaintext is the ciphertext with the bits flipped where the pad behind the key has a one |
| `Record.SealedDecodes` | crates/otp-fullotp/src/record.rs:86-131 | Every sealed record is within the decoder's bounds and survives the wire |
| `Record.OpenOfSealed` | crates/otp-fullotp/src/record.rs:86-207 | A receiver whose remaining pad agrees with the sender's gets the plaintext back, and they agree again afterwards |
| `Record.OnePadPerCiphertext` | crates/otp-fullotp/src/record.rs:86-131 | For every plaintext and every ciphertext of its length, sealing gives that ciphertext under exactly one pad, and the record mixes the plaintext with the pad bit by bit |
| `Record.RecordHidesPlaintext` | crates/otp-fullotp/src/record.rs:86-131 | For any other plaintext of the same length exactly one pad gives the very same record, tag included |
| `Record.MacInputInjective` | crates/otp-fullotp/src/record.rs:53-62 | Headers of one length with equal authenticated bytes are equal, and so are the ciphertexts |
| `Record.OpenMeans` | crates/otp-fullotp/src/record.rs:155-207 | Opening succeeds iff the frame decodes to the expected record at the cursor, fits, and its tag is that of its header and ciphertext under the 32 bytes at the cursor; the plaintext is the ciphertext mixed with the bytes after them |
| `Record.OpenRefuses` | crates/otp-fullotp/src/record.rs:155-207 | Each refusal is given exactly for the first check the frame fails, in order |
| `RecordAuth.OpenedIsSealed` | crates/otp-fullotp/src/record.rs:155-207 | A frame that opens, if its authenticated bytes were authenticated under that key before, is byte for byte a frame that was sealed |
| `RecordAuth.DeliveredIsPrefixOfSent` | crates/otp-fullotp/src/record.rs:53-207 | Two pumps over one book, each driven in any way and fed anything: if nothing fed to the second is forged, its deliveries are a prefix of what the first sent, frame by frame the same bytes and plaintext by plaintext |
| `RecordAuth.ChannelIsUnforged` | crates/otp-fullotp/src/record.rs:53-207 | Whatever frames of the log a channel replays, reorders, drops or reflects, nothing it delivers is forged |
| `Pump.FullOtpPump.Send` | crates/otp-fullotp/src/pump.rs:228-280 | The in-place send has the outcome and the whole new state of `PumpSpec.Send`; it asks for pad iff fewer than 1024 of 4096 bytes are left behind the stream's new cursor |
| `Pump.FullOtpPump.Receive` | crates/otp-fullotp/src/pump.rs:286-338 | The in-place receive has the outcome and the whole new state of `PumpSpec.Receive`; it asks for pad iff fewer than 1024 of 4096 bytes are left behind the stream's new cursor |
| `Pump.FullOtpPump.ServerPrefetch` | crates/otp-fullotp/src/pump.rs:346-366 | The in-place prefetch, with whatever the source answers, is `PumpSpec.ServerPrefetch` |
| `Pump.FullOtpPump.OnControl` | crates/otp-fullotp/src/pump.rs:369-469 | The in-place control handler, with whatever the source answers, is `PumpSpec.OnControl` |
| `PumpRuns.SendMeans` | crates/otp-fullotp/src/pump.rs:228-280 | A send is held back iff not one byte fits and no next stream is ready; otherwise it seals as much as fits, under the next number, in the current stream or the next, moves nothing else, and asks for pad iff fewer than 1024 bytes are left there |
| `PumpRuns.ReceiveMeans` | crates/otp-fullotp/src/pump.rs:286-338 | A frame is delivered iff it is the next record of the current stream, or of the one after it if held, under the tag of the key there; what it delivers, what it leaves, and when it asks for pad |
| `PumpRuns.ReceiveRefuses` | crates/otp-fullotp/src/pump.rs:286-338 | A receive fails as opening fails in the stream it then stands on, or because its numbers are used up |
| `PumpRuns.BackpressureIsAnnounced` | crates/otp-fullotp/src/pump.rs:240-275 | From a new pump, over any calls: a send is held back only in a bundle in which an earlier send asked for pad |
| `PumpRuns.ServerSendsOnAcked` | crates/otp-fullotp/src/pump.rs:421-477 | From a new server, over any calls: past bundle 0 it sends only on bundles acknowledged to it, and with its stream full it is held back iff it holds no acknowledged next one |
| `PumpRuns.UsedPadIsGone` | crates/otp-fullotp/src/pad.rs:123-170 | Over any calls every pad byte behind a cursor is zero, and a pump that has closed holds no pad byte at all |
| `PumpRuns.ControlSucceedsIff` | crates/otp-fullotp/src/pump.rs:369-469 | Which control messages are obeyed, by role and by what is held and awaited; any other closes the pump with its code |
| `PumpRuns.PrefetchMeans` | crates/otp-fullotp/src/pump.rs:346-437 | A server takes a bundle iff it holds no next one, announces it under the next id, and waits for that id's acknowledgement |
| `PumpRuns.OfferMeans` | crates/otp-fullotp/src/pump.rs:380-420 | A client that obeys an offer takes that bundle, both halves whole, and acknowledges that id |
| `PumpRuns.NewMeans` | crates/otp-fullotp/src/pump.rs:131-155 | A new pump stands at the beginning of both halves of bundle 0, the front half going to the server |
| `PumpPair.PerformKeepsInv` | crates/otp-fullotp/src/pump.rs:228-475 | Every enabled action of either honest pump succeeds and keeps the invariant that ties bundle ids, next streams, acknowledgements and counters to both channels |
| `PumpPair.HonestRunsNeverFail` | crates/otp-fullotp/src/pump.rs:228-475 | No interleaving of sends, receives, requests, prefetches, offers and acks makes either pump return an error or close |
| `PumpPair.PrefetchSucceedsIff` | crates/otp-fullotp/src/pump.rs:346-469 | In an honest run a prefetch fails iff it needs a bundle and less than a full one is left |
| `PumpPair.OfferFindsRoom` | crates/otp-fullotp/src/pump.rs:380-420 | When an offer reaches the client, the client holds no next bundle and its pointer and bundle id are exactly those offered |
| `PumpPair.ClientMovesWhenSettled` | crates/otp-fullotp/src/pump.rs:438-477 | A client holding a next stream to send on agrees with the server on the bundle counter |
| `PumpPair.HonestRunsConserve` | crates/otp-fullotp/src/pump.rs:228-338 | In each direction, delivered plaintext followed by that in flight is the plaintext accepted; the two accounts, and within a bundle the two cursors, differ by exactly the cost of what is in flight |
| `PumpPair.DrainedRunsDeliverAll` | crates/otp-fullotp/src/pump.rs:228-338 | With the channels drained, everything accepted has been delivered |
| `PadUse.UsesAhead` | crates/otp-fullotp/src/pump.rs:228-338 | Over any sequence of calls, honest or not, every stretch of pad used lies at or beyond where the pump stood |
| `PadUse.NoPadByteUsedTwice` | crates/otp-fullotp/src/pad.rs:123-157 | Over any sequence of calls on a pump whose bundle ids are in order, any two stretches of one half of one bundle used for a key or an XOR are disjoint |
| `BookUse.NoBookByteUsedTwice` | crates/otp-fullotp/src/pad.rs:123-200 | From a new pump, over any sequence of calls, any two stretches used are disjoint as bytes of the book, across both directions and all bundles, given that the bundles taken do not overlap |
| `BookUse.StreamIsBook` | crates/otp-fullotp/src/pad.rs:187-200 | The offset in a stream made from a bundle holds the very book byte that the stretch's position names |
| `BookSource.AllocatorSource.ReserveNextBundle` | crates/otp-fullotp/src/pad.rs:210-226 | A source over the allocator gives out the 128 segments of the book at its pointer, whole, and keeps account of them, or gives out nothing; it does give them out if nothing stands in the allocator's way, and says exhausted iff too few are left |
| `BookSource.AllocatorSource.ReserveBundleAt` | crates/otp-fullotp/src/pad.rs:210-226 | The same for an announced base, refused without a draw when the allocator stands elsewhere |
| `BookSource.AllocatorSource.BundlesAreSpaced` | crates/otp-book/src/allocator.rs:311-365 | After any calls and failures, no two bundles the source gave out overlap |
| `BookSource.OneAllocatorOnePad` | crates/otp-book/src/allocator.rs:256-365 | A pump whose bundles one allocator handed out, over all its starts and crashes, uses no byte of the book twice |
| `PadTouch.CallBurnsItsUse` | crates/otp-fullotp/src/pad.rs:123-157 | A call that leaves the pump open zeroes exactly the bytes of its use and changes no other pad byte it holds, in either direction and bundle |
| `PadTouch.OpenBurnsItsUse` | crates/otp-fullotp/src/record.rs:155-207 | Opening a frame zeroes exactly the bytes it is said to use, whatever comes of it: none, the key, or key and pad |
| `PadTouch.ResultDependsOnUseOnly` | crates/otp-fullotp/src/pump.rs:228-338 | Two pumps alike but for pad bytes outside the use give the same result: no record or plaintext depends on any other pad byte |
| `PadUse.AccountMatchesUse` | crates/otp-fullotp/src/pump.rs:228-338 | Over any sequence of calls that leaves the pump open, the account grows by 32 per record plus its length, and by the length of the pad used |
| `PadUse.SendAccounts` | crates/otp-fullotp/src/pump.rs:228-280 | Every send, even one that closes the pump, charges exactly the record it returns |
| `PadUse.ReceiveAccounts` | crates/otp-fullotp/src/pump.rs:286-338 | A receive charges exactly what it delivers, except exactly when the counter is at its last value and the frame opens in the stream it is for |
| `PadUse.LastRecordIsWithheld` | crates/otp-fullotp/src/pump.rs:317-338 | Every properly sealed record in sequence at the last counter value is charged, closes the pump and is not delivered |
| `PadUse.ErrorClosesUnlessWireFormat` | crates/otp-fullotp/src/pump.rs:286-338 | A receive error closes an open pump iff the frame decodes; otherwise the pump is unchanged |
| `SessionSpec.RecordNonceInjective` | crates/otp-session/src/nonce.rs:83-89 | Equal nonces of one session have equal direction and sequence number |
| `Layouts.RecordNonceLayout` | crates/otp-session/src/nonce.rs:83-89 | Three bytes of the two nonces mixed, the direction, the record's number in eight bytes |
| `Layouts.AadLayout` | crates/otp-session/src/session.rs:79-97 | The 73 bytes of associated data, field by field |
| `SessionSpec.AadInjective` | crates/otp-session/src/session.rs:79-97 | The associated data determine type, direction, epoch, sequence number, book, segment and both nonces |
| `SessionSpec.KeysAreSegment` | crates/otp-session/src/keys.rs:82-104 | The client's key followed by the server's is the segment, so two sessions have the same keys iff they are on the same segment |
| `SessionSpec.SealSucceedsIff` | crates/otp-session/src/session.rs:257-306 | An active session seals exactly its own confirm as record 0 and data up to the cipher's longest text from record 1 on; the number moves by one, and the last number ends the session |
| `SessionSpec.SealRefuses` | crates/otp-session/src/session.rs:257-306 | Why sealing fails and how it ends the session |
| `SessionSpec.OpenSucceedsIff` | crates/otp-session/src/session.rs:309-373 | An active session accepts exactly the next record in turn, of a type its peer may send under that number, that opens |
| `SessionSpec.OpenRefuses` | crates/otp-session/src/session.rs:309-373 | Why opening fails and how it ends the session |
| `SessionSpec.BytesGiven` | crates/otp-session/src/session.rs:275-360 | Each direction is sealed and opened under its own key, and the nonce and associated data of epoch 0 and the record's number |
| `SessionSpec.SealedInOrder` | crates/otp-session/src/session.rs:257-306 | In any call sequence the records returned are numbered consecutively, the confirm exactly at 0, each under the nonce and associated data of its own number |
| `SessionSpec.NoncesAreDistinct` | crates/otp-session/src/session.rs:257-306 | No two records of a session share a nonce, and their numbers differ by their distance |
| `SessionSpec.OpenedInOrder` | crates/otp-session/src/session.rs:309-373 | What is accepted is numbered consecutively, and each payload was opened under its own nonce and associated data |
| `SessionSpec.AcceptedIsPrefixOfSealed` | crates/otp-session/src/session.rs:257-373 | If none of the bytes a paired receiver is fed is forged, what it accepts is a prefix of what was sealed, whatever calls either end makes |
| `SessionSpec.AcceptedIsLogged` | crates/otp-session/src/session.rs:309-373 | Every acceptance of an unforged run is an entry of the log, under the key, nonce and associated data of its own number |
| `SessionSpec.UntamperedChannelDeliversAll` | crates/otp-session/src/session.rs:257-373 | With a cipher that undoes what it does, a receiver handed the sealed records as they are is fed no forgery and accepts every one |
| `SessionSpec.SealedRecordOpens` | crates/otp-session/src/session.rs:257-373 | On an untampered channel the next record sealed is accepted and gives its plaintext |
| `SessionSpec.AfterKeepsValid` | crates/otp-session/src/session.rs:403-418 | Every call keeps keys present iff not terminated, never changes keys or context, and a terminated session never changes |
| `SessionSpec.TerminatedIsSilent` | crates/otp-session/src/session.rs:403-418 | A terminated session seals and accepts nothing, ever |
| `Session.Session.Seal` | crates/otp-session/src/session.rs:257-306 | The in-place seal has the outcome and state of `SessionSpec.Seal`, a refusal by the cipher included |
| `Session.Session.Open` | crates/otp-session/src/session.rs:309-373 | The in-place open has the outcome and state of `SessionSpec.Open` |
| `Session.Session.CloseNormally` | crates/otp-session/src/session.rs:377-384 | Closing burns the keys once and keeps the first reason |
| `Codec.EncodeInto` | crates/otp-codec/src/encode.rs:28-107 | Appends the frame of a canonical message, and nothing at all when it refuses |
| `Codec.PayloadLength` | crates/otp-codec/src/encode.rs:131-141 | The precomputed payload length is the length written, within the type's range when encodable |
| `Codec.DecodeOfFrame` | crates/otp-codec/src/decode.rs:37-103 | An encoded message decodes to itself for a role that may receive it, and is a direction error for the other |
| `Codec.FrameOfDecode` | crates/otp-codec/src/decode.rs:37-225 | Whatever is accepted re-encodes to the very bytes read |
| `Codec.PrefixIsTruncated` | crates/otp-codec/src/decode.rs:37-103 | Every proper prefix of a frame is truncated, for either role |
| `Codec.DecodeOfConfirmBody` | crates/otp-codec/src/decode.rs:108-141 | A confirm body survives encode then decode |
| `Codec.ConfirmBodyOfDecode` | crates/otp-codec/src/decode.rs:108-141 | An accepted confirm body re-encodes to the bytes read |
| `Layouts.FrameLayout` | crates/otp-codec/src/encode.rs:28-107 | A frame is version 2, type, the length of the rest, then the fields at their offsets, all integers most significant byte first; and the framing layer lets it through |
| `Layouts.EncodableIff` | crates/otp-codec/src/encode.rs:28-107 | Exactly a mismatch naming a pointer and data outside 16 to 65552 bytes have no encoding |
| `Layouts.FrameRefusals` | crates/otp-codec/src/decode.rs:37-90 | The header checks in their order, with the error each gives |
| `Layouts.PayloadRefusals` | crates/otp-codec/src/decode.rs:90-225 | Which whole frames are still refused for their payload, and as what |
| `Layouts.ConfirmBodyLayout` | crates/otp-codec/src/encode.rs:113-129 | The 87 bytes of a confirm body, field by field |
| `Layouts.ConfirmBodyRefusals` | crates/otp-codec/src/decode.rs:108-141 | Which confirm bodies are refused, and as what |
| `Cursor.DecodeFrame` | crates/otp-codec/src/decode.rs:37-287 | The decoder that advances a cursor through the payload computes the specified decoding, errors included |
| `Cursor.Cursor.Take` | crates/otp-codec/src/decode.rs:237-246 | Takes the next n bytes iff there are that many, else reports a length error without moving |
| `HandshakeSpec.ClientDraws` | crates/otp-handshake/src/lib.rs:518-643 | The client looks at no more answers of its allocator than the arbitration calls for, none when it refuses; it sends only if all succeed, and the first failure ends it |
| `HandshakeSpec.ServerDraws` | crates/otp-handshake/src/lib.rs:846-897 | The server draws one segment iff it accepts the request, and goes on iff the draw succeeds |
| `HandshakeSpec.AcceptSucceedsIff` | crates/otp-handshake/src/lib.rs:382-435 | A confirm is accepted iff its outer fields name this session, record 0 of epoch 0, it is the first received, and it opens to exactly the body the peer of this context seals |
| `HandshakeSpec.AcceptRefuses` | crates/otp-handshake/src/lib.rs:302-435 | Why a confirm is refused, in the order of the checks, with the code of each |
| `Layouts.ConfirmContents` | crates/otp-handshake/src/lib.rs:324-360 | A confirm vouches for the party's own book, segment, nonces and direction, under its own type and purpose |
| `HandshakeSpec.ArbitrationIsChecked` | crates/otp-handshake/src/lib.rs:518-589 | The client goes on only with a verdict its own pointer bears out; every other combination is refused as such |
| `HandshakeSpec.HelloIsJudged` | crates/otp-handshake/src/lib.rs:774-844 | The server's verdict on every hello, and that it goes on exactly with a segment left and a client not ahead |
| `HandshakeSpec.RequestRefused` | crates/otp-handshake/src/lib.rs:846-897 | Why an issue request is refused; otherwise the session is keyed by the segment drawn, for the agreed context |
| `HandshakeSpec.ClientKeepsOrder` | crates/otp-handshake/src/lib.rs:477-509 | A client starts once, and any message out of its turn fails it and drops its session |
| `HandshakeSpec.ServerKeepsOrder` | crates/otp-handshake/src/lib.rs:774-920 | The same of a server |
| `HandshakeSpec.CodesOfErrors` | crates/otp-handshake/src/lib.rs:244-262 | The code each failure is reported under |
| `HandshakeRun.RefusedRun` | crates/otp-cli/src/proto.rs:116-306 | Book mismatch, exhaustion and a client ahead end an honest run with both ends down under the same code, and neither allocator, asked for what each machine draws, moves |
| `HandshakeRun.AgreedRun` | crates/otp-cli/src/proto.rs:116-306 | Otherwise both ends establish sessions on the server's segment, both keyed by its bytes 0 to 32 towards the server and 32 to 64 towards the client, and the draws leave both allocators one past it |
| `HandshakeRun.ClientIssues` | crates/otp-handshake/src/lib.rs:518-643 | The client draws up to the server's segment and no further, keys its session by the two halves of that segment and sends request and confirm |
| `HandshakeRun.ServerAccepts` | crates/otp-handshake/src/lib.rs:846-980 | The server draws that one segment, accepts that confirm and answers with its own |
| `HandshakeWorld.AdvanceKeepsInv` | crates/otp-handshake/src/lib.rs:477-1000 | Any input to any of any number of machines keeps the invariant that ties sessions to the log of sealed tuples |
| `HandshakeWorld.AdvanceKeepsKeyed` | crates/otp-handshake/src/lib.rs:591-897 | Any input to any machine keeps every key in use, in hand, in the log or in an established session, a half of the segment its holder drew |
| `HandshakeWorld.EstablishedHavePeers` | crates/otp-handshake/src/lib.rs:591-980 | If nothing is forged, each party that establishes holds as keys the two halves of the segment it drew, and has a peer of the other role with the same book, segment number and nonces that sealed the confirm it accepted under the same key, which is the same half of the segment that peer drew; a client's peer has established too, keyed by what it drew |
| `HandshakeWorld.SettledStays` | crates/otp-handshake/src/lib.rs:477-1000 | Once a party has fixed segment and nonces, no input changes them |
| `HandshakeWorld.LogIsWhatWasSealed` | crates/otp-handshake/src/lib.rs:324-377 | In every run, each entry of the log is what the cipher returned for the key, nonce, associated data and text it records |
| `HandshakeFailure.FailedStaysFailed` | crates/otp-handshake/src/lib.rs:477-1000 | A failed machine stays failed and never sends or establishes, whatever it is fed |
| `HandshakeFailure.KeysOutliveFailureIff` | crates/otp-handshake/src/lib.rs:477-589 | Over every run, a failed machine still holds keys iff it is a client started again after its confirm went out and fed only further starts since |
| `HandshakeFailure.KeysCanOutliveFailure` | crates/otp-handshake/src/lib.rs:477-481 | The run: hello, an acceptable arbitration, a second start |
| `Handshake.BurnGap` | crates/otp-handshake/src/lib.rs:599-603 | Burning the gap hands out exactly the segments drawn, from the old pointer on, and stops at the first failure |
| `Handshake.IssueRow` | crates/otp-handshake/src/lib.rs:599-608 | The gap and then one segment: the last body if every draw succeeds, else the first failure; exactly the segments drawn are handed out, all of them if nothing stands in the allocator's way |
| `Handshake.ClientHandshake.Start` | crates/otp-handshake/src/lib.rs:477-493 | In place, the specified start; a failed random source leaves the phase idle |
| `Handshake.ClientHandshake.Handle` | crates/otp-handshake/src/lib.rs:495-509 | In place, the specified reaction to any message in any phase, on a real allocator and session; exactly the segments drawn are handed out, it sends only if all it asked for were, and without a draw the allocator is untouched |
| `Handshake.ClientHandshake.OnArbitrate` | crates/otp-handshake/src/lib.rs:518-589 | In place, the specified judgement of the arbitration and the gap issued over; every refusal leaves the allocator untouched |
| `Handshake.ClientHandshake.IssueAndConfirm` | crates/otp-handshake/src/lib.rs:591-650 | In place, issue, derive, seal the confirm; each failure ends the handshake with its code; it sends only with the allocator one past the agreed distance, and with its session keyed by the two halves of the last segment of the book it drew |
| `Handshake.ClientHandshake.OnConfirmS2c` | crates/otp-handshake/src/lib.rs:652-719 | In place, the checks of the server's confirm in their order, and the session handed over |
| `Handshake.ServerHandshake.OnHello` | crates/otp-handshake/src/lib.rs:774-844 | In place, the specified arbitration |
| `Handshake.ServerHandshake.OnIssueRequest` | crates/otp-handshake/src/lib.rs:846-897 | In place, the specified checks and one draw; it goes on iff the draw was made and succeeded, with its session keyed by the two halves of the segment of the book drawn; a refused request does not touch the allocator |
| `Handshake.ServerHandshake.OnConfirm` | crates/otp-handshake/src/lib.rs:899-981 | In place, the checks of the client's confirm, the answer, and the session handed over |
| `Framing.CheckFrame` | crates/otp-transport/src/frame.rs:57-70 | A frame passes iff its header declares its own length within the limit; which error otherwise |
| `Layouts.WellFormedMeans` | crates/otp-transport/src/frame.rs:57-70 | What passes: 8 bytes whose last four, most significant first, give the length of the rest, at most 65568 |
| `Framing.FramesAgree` | crates/otp-transport/src/frame.rs:35-54 | Two readings of one byte stream as frames agree on every frame and on what remains |
| `LinkRuns.StepKeepsInv` | crates/otp-transport/src/loopback.rs:206-260 | After every step of either side, bytes drained then bytes buffered are the bytes written, within capacity |
| `LinkRuns.WriteMoves` | crates/otp-transport/src/loopback.rs:235-260 | A pass of the sender moves all that the free space, the rest of the frame and a chunk of 16384 bytes allow |
| `LinkRuns.FramesArriveInOrder` | crates/otp-transport/src/loopback.rs:206-260 | For every capacity and interleaving the frames returned are the first of those sent, and the rest of the stream is exactly what is unread |
| `LinkRuns.EmptyLinkDeliveredAll` | crates/otp-transport/src/loopback.rs:206-260 | With both ends at rest and an empty pipe every frame sent has been returned |
| `LinkRuns.WhyReceiveFails` | crates/otp-transport/src/frame.rs:35-54 | A receive that loses bytes was cut by a timeout or by the end of the stream, never by size, and lost the start of the next frame |
| `LinkRuns.ReceiveFromQuietSenderFailsIff` | crates/otp-transport/src/loopback.rs:206-233 | With the sender between frames, a receive is stuck on bytes it took iff they are the last frame sent, whole and without payload; then a closed stream fails it as malformed and an open one times it out, and otherwise neither happens |
| `LinkRuns.FramesWithPayloadAreNeverLost` | crates/otp-transport/src/loopback.rs:206-233 | If every frame sent has a payload, no receive from a quiet sender ever loses bytes |
| `LinkRuns.FrameWithoutPayloadIsLost` | crates/otp-transport/src/loopback.rs:206-233 | The run in which such a frame is sent without error and reported as malformed |
| `LinkRuns.FrameWithoutPayloadTimesOut` | crates/otp-transport/src/loopback.rs:206-233 | The run in which, with the stream open, it is sent, taken whole and dropped at the deadline |
| `Loopback.Pipe.WritePartial` | crates/otp-transport/src/loopback.rs:235-260 | Moves at least one byte and at most a chunk, or fails having moved none: at once if the reader is gone, or when the pipe was full at a look before every wait and one after the last |
| `Loopback.Pipe.ReadFull` | crates/otp-transport/src/loopback.rs:206-233 | Fills the request, or reports a clean end iff nothing of it arrived, or an error that leaves the pipe empty: malformed if the stream ended, a timeout if it did not and the pipe was looked at before every wait and after the last |
| `Loopback.Pipe.SendFrame` | crates/otp-transport/src/frame.rs:57-80 | The loop ends; success means the whole frame went out after all earlier ones; otherwise the reader is gone or the pipe was full to a deadline, and a frame that fails the checks leaves no trace |
| `Loopback.Pipe.RecvFrame` | crates/otp-transport/src/frame.rs:35-54 | A whole well-formed frame or an error; the peer closing between frames is told apart, and each error says how the pipe stands |
| `Loopback.Pipe.ReturnsWhatWasSent` | crates/otp-transport/src/loopback.rs:206-260 | After any calls of both ends the frames returned are a prefix of the frames sent |
| `Civil.CivilIsRight` | crates/otp-doorkeeper/src/log.rs:256-267 | Every day number converts to a valid date with that day number |
| `Civil.CivilOfDayNumber` | crates/otp-doorkeeper/src/log.rs:256-267 | Every valid date is what its day number converts to |
| `Civil.CivilStepsThroughCalendar` | crates/otp-doorkeeper/src/log.rs:256-267 | The next day number converts to the next calendar day, and day 0 is 1 January 1970 |
| `Civil.DayNumberCounts` | crates/otp-doorkeeper/src/log.rs:256-267 | The reference day number counts days: it grows by one from each date to its successor |
| `Civil.YearOfEraIsRight` | crates/otp-doorkeeper/src/log.rs:256-267 | The closed formula finds the year of the era containing the day, so the day of the year never underflows |
| `Civil.YearSubtractions` | crates/otp-doorkeeper/src/log.rs:256-267 | No unsigned subtraction in the formula for the year goes below zero |
| `Observer.VersionObserver.Observe` | crates/otp-doorkeeper/src/obs.rs:48-82 | The drain loop keeps the observer equal to a scan of the whole stream so far |
| `Observer.VersionObserver.TakeResult` | crates/otp-doorkeeper/src/obs.rs:96-105 | The result is a function of the concatenated stream |
| `Observer.ObserveAll` | crates/otp-doorkeeper/src/obs.rs:48-105 | However the stream is cut into chunks the result is that of the joined stream |
| `Observer.ResultIsFirstVersionLine` | crates/otp-doorkeeper/src/obs.rs:48-105 | A version is reported iff some line starting "SSH-" ends inside the window, and it is the first such line, cut to 128 bytes |
| `Observer.VersionLineMeans` | crates/otp-doorkeeper/src/obs.rs:48-82 | What a version line is in bytes and offsets, and that it is kept without its carriage return and cut at 128 |
| `Observer.ScanMeans` | crates/otp-doorkeeper/src/obs.rs:48-82 | The line-by-line scan finds the first version line from where it starts, or there is none |
| `Observer.DecidedStays` | crates/otp-doorkeeper/src/obs.rs:48-89 | A decision is never changed by later bytes |
| `Lease.LeaseManager.Acquire` | crates/otp-terminal/src/lease.rs:135-158 | Grants the next token iff nobody live holds the lease, else names the holder |
| `Lease.LeaseManager.Heartbeat` | crates/otp-terminal/src/lease.rs:160-167 | Extends the lease iff the token is current |
| `Lease.LeaseManager.WriteGate` | crates/otp-terminal/src/lease.rs:180-190 | Returns the result of the write action iff the token is current, and otherwise that the writer is stale |
| `Lease.LeaseManager.DropGrant` | crates/otp-terminal/src/lease.rs:77-86 | Dropping a grant abandons the lease only if it is still that grant's |
| `Lease.TokensNeverDecrease` | crates/otp-terminal/src/lease.rs:135-190 | Over every run tokens in the log of grants and writes never decrease and grants strictly increase |
| `Lease.OverStaysOver` | crates/otp-terminal/src/lease.rs:135-190 | A token that is over never writes again |
| `Lease.OneCurrentToken` | crates/otp-terminal/src/lease.rs:135-178 | After any run, a current token was granted in it and is the last granted, no other is current, and asking for the lease is refused and changes nothing |
| `Lease.FreeIffNoneCurrent` | crates/otp-terminal/src/lease.rs:135-178 | After any run the lease can be had iff no token is current |
| `Lease.CurrentForTimeout` | crates/otp-terminal/src/lease.rs:128-178 | A grant or an accepted heartbeat keeps its token current for exactly the timeout; a drop or a new grant ends it |
| `Lease.StaleDropIsHarmless` | crates/otp-terminal/src/lease.rs:77-86 | After any run in which a later grant followed that of a token, dropping that token changes nothing |
| `Lease.WritesFollowTheirGrant` | crates/otp-terminal/src/lease.rs:135-190 | Every write follows the grant of its token |

## Left out

- Progress: nothing is claimed about the pump's, the handshake's or a receive's eventually succeeding; an idle direction
  can block prefetch, and a client whose request is lost stays ahead of the server.
- The insides of SHA-256, ChaCha20-Poly1305 and Poly1305.
- Zeroing on drop and constant-time comparison; that burned pad bytes are zero is modelled.
- Files, locks, sync system calls, the platform checks and `FileMedia`; the media contract above stands for them.
- `usize::try_from` of a segment count.
- `Pump.FullOtpPump.ServerPrefetch`: where it would ask its source, requires a bundle counter below the last 64-bit value, as the source adds to it unchecked.
- `Pump.FullOtpPump.OnControl`: the same requirement, for the messages that would ask the source.
- `Lease.LeaseManager.Acquire`: where it would grant, requires a token below the last 64-bit value, as the source panics there; the clock is read once for a call.
- `PumpPair.HonestRunsNeverFail`: before any close, with send counters not exhausted and a full bundle left where the server has to prefetch one.
- `LinkRuns.FramesArriveInOrder`: a receiver that lost bytes to an error takes no further part, as the transport's contract asks of its callers.
- `HandshakeRun.RefusedRun`: an end whose peer has gone is given the code of a transport error.
- The flag by which a closed endpoint of the in-process transport refuses later calls, and its byte recorder.
- The pump holds its next stream as a value, since the source moves that memory by value.
- The conversion of a version line to text with replacement characters; the model keeps the bytes.
- Days beyond the range of a 64-bit count of seconds, where the calendar's integers could overflow.
- TCP, the terminal's client and server loops, proxy threads, signals, command lines, audit text, book generation.
- Terminal application frames, the payload bytes of pad control messages, error-code tables and JSON escaping, which
  would repeat the codec's properties.
