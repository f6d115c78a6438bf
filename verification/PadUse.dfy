/**
 * What one pump, driven by anyone in any way, does with its pad: every call it can receive, the stretch of pad
 * each call cuts, and the account it keeps.
 */
module PadUse {
  import opened Bytes
  import opened Types
  import opened Wire
  import opened Pad
  import opened Record
  import opened PumpSpec

  datatype Call =
    | CallSend(plaintext: seq<byte>)
    | CallReceive(frame: seq<byte>)
    | CallPrefetch(answer: Answer)
    | CallControl(msg: PadControl, answer: Answer)
    | CallClose

  /**
   * Bytes `[from, to)` of one direction of one bundle: a key of 32 at `from`, then exclusive-or pad up to `to`.
   * The half they are cut from starts at segment `base` of the book.
   */
  datatype Use = Use(direction: Direction, bundleId: nat, base: nat, from: nat, to: nat) {
    /** Position in the book of the first byte, and of the byte after the last; a segment has 64 bytes. */
    function First(): nat {
      64 * base + from
    }

    function End(): nat {
      64 * base + to
    }
  }

  predicate Callable(p: PumpState, c: Call) {
    p.Valid() &&
    match c
    case CallPrefetch(_) => Prefetches(p) ==> p.nextBundleId < U64_MAX
    case CallControl(msg, answer) => Answers(answer, msg) && (AsksSource(p, msg) ==> p.nextBundleId < U64_MAX)
    case _ => true
  }

  function After(mac: Mac, p: PumpState, c: Call): PumpState
    requires Callable(p, c)
  {
    match c
    case CallSend(plaintext) => Send(mac, p, plaintext).0
    case CallReceive(frame) => Receive(mac, p, frame).0
    case CallPrefetch(answer) => ServerPrefetch(p, answer).0
    case CallControl(msg, answer) => OnControl(p, msg, answer).0
    case CallClose => if p.closed then p else p.Closed()
  }

  /** The stretch a stream gives up to seal `l` bytes of plaintext. */
  function SealUse(s: Stream, d: Direction, l: nat): Use {
    Use(d, s.bundleId, s.baseSegment, s.cursor, s.cursor + MAC_KEY_LEN + l)
  }

  /** The stretch a stream gives up to open a frame: nothing before the checks pass, the key to test the tag. */
  function OpenUse(mac: Mac, s: Stream, want: OpenExpectation, frame: seq<byte>): Option<Use>
    requires s.Valid()
  {
    match Decode(frame)
    case Err(_) => None
    case Ok(r) =>
      if Precheck(s, want, r).Some? then None
      else if mac(s.MacKey(), MacInput(Header(r), r.ciphertext)) != r.tag
      then Some(Use(want.direction, s.bundleId, s.baseSegment, s.cursor, s.cursor + MAC_KEY_LEN))
      else Some(Use(want.direction, s.bundleId, s.baseSegment, s.cursor, s.cursor + MAC_KEY_LEN + |r.ciphertext|))
  }

  /** The pump as it stands when a frame is opened, after any switch; none if the frame is refused before that. */
  function Seated(p: PumpState, frame: seq<byte>): Option<PumpState> {
    match Decode(frame)
    case Err(_) => None
    case Ok(rec) =>
      var plane := p.PlaneOf(p.RecvDir());
      if p.closed || rec.direction != p.RecvDir() then None
      else if rec.bundleId != plane.current.bundleId + 1 then Some(p)
      else if plane.next.Some? && plane.next.value.bundleId == rec.bundleId then Some(p.Switched(p.RecvDir()))
      else None
  }

  function Wanted(q: PumpState): OpenExpectation {
    var s := q.PlaneOf(q.RecvDir()).current;
    OpenExpectation(q.RecvDir(), s.bundleId, s.baseSegment, q.recvSeq)
  }

  lemma ReceiveIsSeated(mac: Mac, p: PumpState, frame: seq<byte>)
    requires p.Valid()
    ensures Seated(p, frame).Some? ==> Receive(mac, p, frame) == ReceiveHere(mac, Seated(p, frame).value, frame)
    ensures Seated(p, frame).None? ==>
              var (p', r) := Receive(mac, p, frame);
              && r.Err? && (r.error == OtpError.Closed ==> p.closed) && (p' == p || p' == p.Closed())
  {
    hide Burned, Zeros, ReceiveHere;
  }

  lemma SeatedKeeps(p: PumpState, frame: seq<byte>)
    requires p.Valid() && Seated(p, frame).Some?
    ensures var q := Seated(p, frame).value;
            q.Valid() && q.role == p.role && !q.closed && !p.closed && q.recvSeq == p.recvSeq &&
            forall d :: q.ConsumedOf(d) == p.ConsumedOf(d)
  {
  }

  function UsedBy(mac: Mac, p: PumpState, c: Call): Option<Use>
    requires Callable(p, c)
  {
    if p.closed then None
    else
      match c
      case CallSend(plaintext) =>
        var d := p.SendDir();
        var full := p.PlaneOf(d).current.MaxRecordLen() == 0;
        if plaintext == [] || (full && !p.NextReadyForSend(d)) then None
        else
          var s := (if full then p.Switched(d) else p).PlaneOf(d).current;
          var l := Min(|plaintext|, s.MaxRecordLen());
          if l == 0 then None else Some(SealUse(s, d, l))
      case CallReceive(frame) =>
        (match Seated(p, frame)
         case None => None
         case Some(q) => OpenUse(mac, q.PlaneOf(q.RecvDir()).current, Wanted(q), frame))
      case _ => None
  }

  // ---- no stretch of pad is used twice ----

  predicate PlaneOrdered(p: Plane, top: nat) {
    p.current.bundleId < top &&
    (p.next.Some? ==> p.current.bundleId < p.next.value.bundleId < top && p.next.value.cursor == 0)
  }

  /** Bundle ids only grow: current below next below the next to be allotted. */
  predicate Ordered(p: PumpState) {
    p.Valid() && (p.closed || (PlaneOrdered(p.c2s, p.nextBundleId) && PlaneOrdered(p.s2c, p.nextBundleId)))
  }

  predicate Before(bundle: nat, offset: nat, bundle': nat, offset': nat) {
    bundle < bundle' || (bundle == bundle' && offset <= offset')
  }

  /** `u` ends before where direction `u.direction` of the pump now stands. */
  predicate Passed(u: Use, p: PumpState) {
    var s := p.PlaneOf(u.direction).current;
    p.closed || Before(u.bundleId, u.to, s.bundleId, s.cursor)
  }

  /** A stretch starts at or after where its direction stands, and stays inside the half it is cut from. */
  predicate Ahead(u: Use, p: PumpState) {
    var s := p.PlaneOf(u.direction).current;
    !p.closed && Before(s.bundleId, s.cursor, u.bundleId, u.from) && u.from + MAC_KEY_LEN <= u.to <= PAD_HALF
  }

  /** Both directions stand where they stood or later, or everything has been given up. */
  predicate Advances(p: PumpState, p': PumpState) {
    p'.closed ||
    (!p.closed
     && Before(p.c2s.current.bundleId, p.c2s.current.cursor, p'.c2s.current.bundleId, p'.c2s.current.cursor)
     && Before(p.s2c.current.bundleId, p.s2c.current.cursor, p'.s2c.current.bundleId, p'.s2c.current.cursor))
  }

  /** What every call does to the pump's places, given the stretch it used. */
  predicate Progress(p: PumpState, p': PumpState, u: Option<Use>) {
    Ordered(p') && Advances(p, p') && (u.Some? ==> Ahead(u.value, p) && Passed(u.value, p'))
  }

  lemma SwitchAdvances(p: PumpState, d: Direction)
    requires Ordered(p) && !p.closed && p.PlaneOf(d).next.Some?
    ensures var p' := p.Switched(d);
            && Ordered(p') && Advances(p, p') && p'.role == p.role && !p'.closed
            && p'.PlaneOf(d).current == p.PlaneOf(d).next.value
            && p'.recvSeq == p.recvSeq && p'.sendSeq == p.sendSeq
            && p'.PlaneOf(d.Opposite()) == p.PlaneOf(d.Opposite())
  {
  }

  lemma StreamAdvances(p: PumpState, d: Direction, s': Stream)
    requires Ordered(p) && !p.closed && s'.Valid()
    requires var s := p.PlaneOf(d).current; s'.bundleId == s.bundleId && s.cursor <= s'.cursor
    ensures var p' := p.SetPlane(d, p.PlaneOf(d).(current := s')); Ordered(p') && Advances(p, p')
  {
  }

  lemma SendHereUses(mac: Mac, p: PumpState, plaintext: seq<byte>)
    requires Ordered(p) && !p.closed && plaintext != []
    ensures var d := p.SendDir();
            var s := p.PlaneOf(d).current;
            var l := Min(|plaintext|, s.MaxRecordLen());
            Progress(p, SendHere(mac, p, plaintext).0, if l == 0 then None else Some(SealUse(s, d, l)))
  {
    hide SealedRecord, Burned, Zeros;
    var d := p.SendDir();
    var s := p.PlaneOf(d).current;
    var l := Min(|plaintext|, s.MaxRecordLen());
    if l > 0 {
      StreamAdvances(p, d, s.Spent(l));
    }
  }

  lemma SendUses(mac: Mac, p: PumpState, plaintext: seq<byte>)
    requires Callable(p, CallSend(plaintext)) && Ordered(p)
    ensures Progress(p, Send(mac, p, plaintext).0, UsedBy(mac, p, CallSend(plaintext)))
  {
    hide SendHere, Burned, Zeros;
    var d := p.SendDir();
    if !p.closed && plaintext != [] {
      if p.PlaneOf(d).current.MaxRecordLen() != 0 {
        SendHereUses(mac, p, plaintext);
      } else if p.NextReadyForSend(d) {
        SwitchAdvances(p, d);
        SendHereUses(mac, p.Switched(d), plaintext);
      }
    }
  }

  lemma OpenMoves(mac: Mac, s: Stream, want: OpenExpectation, frame: seq<byte>)
    requires s.Valid()
    ensures var (s', r) := Open(mac, s, want, frame);
            var u := OpenUse(mac, s, want, frame);
            && (r.Ok? ==> u == Some(Use(want.direction, s.bundleId, s.baseSegment, s.cursor, s'.cursor)))
            && (u.Some? ==> u.value.direction == want.direction && u.value.bundleId == s.bundleId && u.value.base == s.baseSegment
                            && u.value.from == s.cursor && s.cursor + MAC_KEY_LEN <= u.value.to <= PAD_HALF)
            && s.cursor <= s'.cursor
            && (u.Some? <==> r.Ok? || r == Err(TagInvalid)) && r != Err(OtpError.Closed)
            && (r.Ok? ==> s'.cursor == s.cursor + MAC_KEY_LEN + |r.value|)
  {
    hide Decode, Header, MacInput, XorSeq, Burned;
  }

  lemma ReceiveHereUses(mac: Mac, p: PumpState, frame: seq<byte>)
    requires Ordered(p) && !p.closed
    ensures Progress(p, ReceiveHere(mac, p, frame).0, OpenUse(mac, p.PlaneOf(p.RecvDir()).current, Wanted(p), frame))
  {
    hide Decode, Open, OpenUse, Burned, Zeros;
    var d := p.RecvDir();
    var s := p.PlaneOf(d).current;
    OpenMoves(mac, s, Wanted(p), frame);
    StreamAdvances(p, d, Open(mac, s, Wanted(p), frame).0);
  }

  lemma SeatedAdvances(p: PumpState, frame: seq<byte>)
    requires Ordered(p) && Seated(p, frame).Some?
    ensures Ordered(Seated(p, frame).value) && Advances(p, Seated(p, frame).value)
  {
    hide Decode, Burned, Zeros;
  }

  lemma ReceiveUses(mac: Mac, p: PumpState, frame: seq<byte>)
    requires Callable(p, CallReceive(frame)) && Ordered(p)
    ensures Progress(p, Receive(mac, p, frame).0, UsedBy(mac, p, CallReceive(frame)))
  {
    hide Receive, ReceiveHere, OpenUse, Seated, Burned, Zeros;
    ReceiveIsSeated(mac, p, frame);
    if Seated(p, frame).Some? {
      SeatedAdvances(p, frame);
      SeatedKeeps(p, frame);
      ReceiveHereUses(mac, Seated(p, frame).value, frame);
    }
  }

  lemma AdoptAdvances(p: PumpState, base: u64, flat: Bundle)
    requires Ordered(p) && !p.closed && p.nextBundleId < U64_MAX && base + 128 <= U64_MAX
    ensures Ordered(Adopted(p, p.nextBundleId, base, flat)) && Advances(p, Adopted(p, p.nextBundleId, base, flat))
  {
  }

  lemma CallUses(mac: Mac, p: PumpState, c: Call)
    requires Callable(p, c) && Ordered(p)
    ensures Progress(p, After(mac, p, c), UsedBy(mac, p, c))
  {
    hide Send, Receive, Burned, Zeros, Adopted;
    match c {
      case CallSend(plaintext) => SendUses(mac, p, plaintext);
      case CallReceive(frame) => ReceiveUses(mac, p, frame);
      case CallPrefetch(answer) =>
        if Prefetches(p) && answer.Ok? {
          AdoptAdvances(p, answer.value.base, answer.value.flat);
        }
      case CallControl(msg, answer) =>
        if AsksSource(p, msg) && answer.Ok? {
          AdoptAdvances(p, answer.value.base, answer.value.flat);
        }
      case CallClose =>
    }
  }

  // ---- whole sessions ----

  predicate CallsPossible(mac: Mac, p: PumpState, calls: seq<Call>)
    decreases |calls|
  {
    |calls| == 0 || (Callable(p, calls[0]) && CallsPossible(mac, After(mac, p, calls[0]), calls[1..]))
  }

  /** Every stretch cut by a sequence of calls, in order. */
  function Uses(mac: Mac, p: PumpState, calls: seq<Call>): seq<Use>
    requires CallsPossible(mac, p, calls)
    decreases |calls|
  {
    if |calls| == 0 then []
    else
      (match UsedBy(mac, p, calls[0]) case None => [] case Some(u) => [u])
      + Uses(mac, After(mac, p, calls[0]), calls[1..])
  }

  predicate Apart(u: Use, v: Use) {
    u.direction != v.direction || u.bundleId != v.bundleId || u.to <= v.from || v.to <= u.from
  }

  lemma AheadOfLater(u: Use, p: PumpState, p': PumpState)
    requires Advances(p, p') && Ahead(u, p')
    ensures Ahead(u, p)
  {
  }

  lemma {:induction false} UsesAhead(mac: Mac, p: PumpState, calls: seq<Call>)
    requires CallsPossible(mac, p, calls) && Ordered(p)
    ensures forall i :: 0 <= i < |Uses(mac, p, calls)| ==> Ahead(Uses(mac, p, calls)[i], p)
    decreases |calls|
  {
    hide After, UsedBy, Ahead, Advances, Passed, Ordered;
    if |calls| > 0 {
      var p' := After(mac, p, calls[0]);
      CallUses(mac, p, calls[0]);
      UsesAhead(mac, p', calls[1..]);
      var later := Uses(mac, p', calls[1..]);
      forall i | 0 <= i < |later|
        ensures Ahead(later[i], p)
      {
        AheadOfLater(later[i], p, p');
      }
    }
  }

  /**
   * Over any sequence of calls, honest or not, from any pump whose bundle ids are in order: the stretches of
   * pad used are pairwise apart, so no byte is ever used for a second key or a second exclusive-or.
   */
  lemma {:induction false} NoPadByteUsedTwice(mac: Mac, p: PumpState, calls: seq<Call>, i: nat, j: nat)
    requires CallsPossible(mac, p, calls) && Ordered(p)
    requires i < j < |Uses(mac, p, calls)|
    ensures Apart(Uses(mac, p, calls)[i], Uses(mac, p, calls)[j])
    decreases |calls|
  {
    hide After, UsedBy;
    var p' := After(mac, p, calls[0]);
    CallUses(mac, p, calls[0]);
    var later := Uses(mac, p', calls[1..]);
    if UsedBy(mac, p, calls[0]).None? {
      NoPadByteUsedTwice(mac, p', calls[1..], i, j);
    } else if i > 0 {
      NoPadByteUsedTwice(mac, p', calls[1..], i - 1, j - 1);
    } else {
      UsesAhead(mac, p', calls[1..]);
      assert Ahead(later[j - 1], p') && Passed(Uses(mac, p, calls)[0], p');
    }
  }

  /** A new pump's bundle ids are in order. */
  lemma NewIsOrdered(role: Role, base: u64, flat: Bundle)
    requires base + 128 <= U64_MAX
    ensures Ordered(New(role, base, flat))
  {
  }

  /** The halves of a bundle are its two complementary parts. */
  lemma HalvesAreDisjoint(flat: Bundle)
    ensures HalfOf(flat, ClientToServer) + HalfOf(flat, ServerToClient) == flat
  {
  }

  /**
   * An error from an open pump closes it, with one exception: a frame that does not decode is reported and
   * leaves the pump exactly as it was.
   */
  lemma ErrorClosesUnlessWireFormat(mac: Mac, p: PumpState, frame: seq<byte>)
    requires p.Valid() && !p.closed && Receive(mac, p, frame).1.Err?
    ensures var (p', r) := Receive(mac, p, frame);
            && (p'.closed <==> !r.error.WireFormat?)
            && (r.error.WireFormat? <==> Decode(frame).Err?)
            && (r.error.WireFormat? ==> p' == p)
  {
    hide Open, Burned, Zeros;
    if Decode(frame).Ok? {
      OpenDecodes(mac, frame);
    }
  }

  lemma OpenDecodes(mac: Mac, frame: seq<byte>)
    requires Decode(frame).Ok?
    ensures forall s: Stream, want :: s.Valid() && Open(mac, s, want, frame).1.Err? ==>
              !Open(mac, s, want, frame).1.error.WireFormat?
  {
    hide Decode, Header, MacInput, XorSeq, Burned;
  }

  // ---- the account ----

  /** 32 bytes for the key and the plaintext length of the record a call returned or delivered, by direction. */
  function Returned(mac: Mac, p: PumpState, c: Call, d: Direction): nat
    requires Callable(p, c)
  {
    match c
    case CallSend(plaintext) =>
      (match Send(mac, p, plaintext).1
       case Ok(Sent(_, n, _)) => if d == p.SendDir() then MAC_KEY_LEN + n else 0
       case _ => 0)
    case CallReceive(frame) =>
      (match Receive(mac, p, frame).1
       case Ok(Received(got, _)) => if d == p.RecvDir() then MAC_KEY_LEN + |got| else 0
       case _ => 0)
    case _ => 0
  }

  /** The frame passes every check against the stream the pump stands on. */
  predicate Opens(mac: Mac, q: PumpState, frame: seq<byte>)
    requires q.Valid()
  {
    Open(mac, q.PlaneOf(q.RecvDir()).current, Wanted(q), frame).1.Ok?
  }

  /** The last sequence number has been used up: one more record opens, is counted, and is then withheld. */
  predicate WithheldAtEnd(mac: Mac, p: PumpState, c: Call)
    requires Callable(p, c)
  {
    c.CallReceive? && p.recvSeq == U64_MAX && Seated(p, c.frame).Some? && Opens(mac, Seated(p, c.frame).value, c.frame)
  }

  function LengthIn(u: Option<Use>, d: Direction): int {
    if u.Some? && u.value.direction == d then u.value.to - u.value.from else 0
  }

  lemma SendHereAccounts(mac: Mac, p: PumpState, plaintext: seq<byte>, d: Direction)
    requires p.Valid() && plaintext != []
    ensures var (p', r) := SendHere(mac, p, plaintext);
            var s := p.PlaneOf(p.SendDir()).current;
            var l := Min(|plaintext|, s.MaxRecordLen());
            && (r.Ok? ==> r.value.Sent? && r.value.consumedPlaintext == l > 0)
            && p'.ConsumedOf(d) == p.ConsumedOf(d) + (if r.Ok? && d == p.SendDir() then MAC_KEY_LEN + l else 0)
            && (r.Err? ==> p'.closed)
  {
    hide SealedRecord, Burned, Zeros;
  }

  lemma SendAccounts(mac: Mac, p: PumpState, plaintext: seq<byte>, d: Direction)
    requires Callable(p, CallSend(plaintext))
    ensures Send(mac, p, plaintext).0.ConsumedOf(d) == p.ConsumedOf(d) + Returned(mac, p, CallSend(plaintext), d)
    ensures !Send(mac, p, plaintext).0.closed ==>
              Returned(mac, p, CallSend(plaintext), d) == LengthIn(UsedBy(mac, p, CallSend(plaintext)), d)
  {
    hide SendHere, Burned, Zeros;
    if !p.closed && plaintext != [] {
      SendHereAccounts(mac, p, plaintext, d);
      if p.PlaneOf(p.SendDir()).next.Some? {
        SendHereAccounts(mac, p.Switched(p.SendDir()), plaintext, d);
      }
    }
  }

  lemma ReceiveHereAccounts(mac: Mac, p: PumpState, frame: seq<byte>, d: Direction)
    requires p.Valid()
    ensures var (p', r) := ReceiveHere(mac, p, frame);
            var u := OpenUse(mac, p.PlaneOf(p.RecvDir()).current, Wanted(p), frame);
            && (r.Ok? ==> u.Some? && u.value.direction == p.RecvDir()
                          && u.value.to - u.value.from == MAC_KEY_LEN + |r.value.plaintext|)
            && (r.Ok? ==> p.recvSeq < U64_MAX && p'.ConsumedOf(d) == p.ConsumedOf(d) + LengthIn(u, d))
            && (r.Err? ==> p'.closed)
            && (r.Err? ==> (p'.ConsumedOf(d) == p.ConsumedOf(d) <==>
                            !(d == p.RecvDir() && p.recvSeq == U64_MAX && Opens(mac, p, frame))))
  {
    hide Decode, Open, OpenUse, Burned, Zeros;
    OpenMoves(mac, p.PlaneOf(p.RecvDir()).current, Wanted(p), frame);
  }

  /** The account and what was delivered part ways exactly on the record withheld at the end. */
  lemma ReceiveAccounts(mac: Mac, p: PumpState, frame: seq<byte>, d: Direction)
    requires Callable(p, CallReceive(frame))
    ensures Receive(mac, p, frame).0.ConsumedOf(d) ==
            p.ConsumedOf(d) + Returned(mac, p, CallReceive(frame), d) <==>
            !(d == p.RecvDir() && WithheldAtEnd(mac, p, CallReceive(frame)))
    ensures !Receive(mac, p, frame).0.closed ==>
              && Returned(mac, p, CallReceive(frame), d) == LengthIn(UsedBy(mac, p, CallReceive(frame)), d)
              && !WithheldAtEnd(mac, p, CallReceive(frame))
  {
    hide Receive, ReceiveHere, Opens, OpenUse, Seated;
    ReceiveIsSeated(mac, p, frame);
    if Seated(p, frame).Some? {
      SeatedKeeps(p, frame);
      ReceiveHereAccounts(mac, Seated(p, frame).value, frame, d);
    }
  }

  /** Such a record: properly sealed and in sequence, it costs its pad, closes the pump and is never delivered. */
  lemma LastRecordIsWithheld(mac: Mac, p: PumpState, plaintext: seq<byte>)
    requires p.Valid() && !p.closed && p.recvSeq == U64_MAX
    requires plaintext != [] && p.PlaneOf(p.RecvDir()).current.Fits(|plaintext|)
    ensures var d := p.RecvDir();
            var frame := Encode(SealedRecord(mac, p.PlaneOf(d).current, d, U64_MAX, plaintext));
            && WithheldAtEnd(mac, p, CallReceive(frame))
            && Receive(mac, p, frame).1 == Err(OtpError.Closed) && Receive(mac, p, frame).0.closed
            && Returned(mac, p, CallReceive(frame), d) == 0
            && Receive(mac, p, frame).0.ConsumedOf(d) == p.ConsumedOf(d) + MAC_KEY_LEN + |plaintext|
  {
    hide Encode, Decode, Open, SealedRecord, Burned, Zeros, InBounds;
    var d := p.RecvDir();
    var s := p.PlaneOf(d).current;
    SealedDecodes(mac, s, d, U64_MAX, plaintext);
    SealedPlace(mac, s, d, U64_MAX, plaintext);
    OpenOfSealed(mac, s, s, d, U64_MAX, plaintext);
  }

  lemma SealedPlace(mac: Mac, s: Stream, d: Direction, seqNo: u64, plaintext: seq<byte>)
    requires s.Valid() && s.Fits(|plaintext|)
    ensures var r := SealedRecord(mac, s, d, seqNo, plaintext); r.direction == d && r.bundleId == s.bundleId
  {
  }

  /** While the pump stays open, a call returns exactly the pad it cuts. */
  lemma OpenCallsReturnWhatTheyUse(mac: Mac, p: PumpState, c: Call, d: Direction)
    requires Callable(p, c) && !After(mac, p, c).closed
    ensures Returned(mac, p, c, d) == LengthIn(UsedBy(mac, p, c), d)
    ensures After(mac, p, c).ConsumedOf(d) == p.ConsumedOf(d) + Returned(mac, p, c, d)
  {
    hide Send, Receive, Burned, Zeros;
    match c {
      case CallSend(plaintext) => SendAccounts(mac, p, plaintext, d);
      case CallReceive(frame) =>
        ReceiveAccounts(mac, p, frame, d);
      case _ =>
    }
  }

  function Finally(mac: Mac, p: PumpState, calls: seq<Call>): PumpState
    requires CallsPossible(mac, p, calls)
    decreases |calls|
  {
    if |calls| == 0 then p else Finally(mac, After(mac, p, calls[0]), calls[1..])
  }

  function TotalReturned(mac: Mac, p: PumpState, calls: seq<Call>, d: Direction): nat
    requires CallsPossible(mac, p, calls)
    decreases |calls|
  {
    if |calls| == 0 then 0
    else Returned(mac, p, calls[0], d) + TotalReturned(mac, After(mac, p, calls[0]), calls[1..], d)
  }

  function TotalLength(uses: seq<Use>, d: Direction): int
    decreases |uses|
  {
    if |uses| == 0 then 0 else LengthIn(Some(uses[0]), d) + TotalLength(uses[1..], d)
  }

  lemma {:induction false} ClosedStaysClosed(mac: Mac, p: PumpState, calls: seq<Call>)
    requires CallsPossible(mac, p, calls) && p.closed
    ensures Finally(mac, p, calls).closed
    decreases |calls|
  {
    hide Burned, Zeros;
    if |calls| > 0 {
      ClosedStaysClosed(mac, After(mac, p, calls[0]), calls[1..]);
    }
  }

  /**
   * Over any sequence of calls that leaves the pump open, its account of a direction grows by 32 for each
   * record returned or delivered plus their lengths, and by exactly the length of the pad used.
   */
  lemma {:induction false} AccountMatchesUse(mac: Mac, p: PumpState, calls: seq<Call>, d: Direction)
    requires CallsPossible(mac, p, calls) && !Finally(mac, p, calls).closed
    ensures Finally(mac, p, calls).ConsumedOf(d) == p.ConsumedOf(d) + TotalReturned(mac, p, calls, d)
    ensures TotalReturned(mac, p, calls, d) == TotalLength(Uses(mac, p, calls), d)
    decreases |calls|
  {
    hide After, UsedBy, Returned;
    if |calls| > 0 {
      var p' := After(mac, p, calls[0]);
      if p'.closed {
        ClosedStaysClosed(mac, p', calls[1..]);
      }
      OpenCallsReturnWhatTheyUse(mac, p, calls[0], d);
      AccountMatchesUse(mac, p', calls[1..], d);
      var u := UsedBy(mac, p, calls[0]);
      var later := Uses(mac, p', calls[1..]);
      assert [] + later == later;
      if u.Some? {
        assert ([u.value] + later)[1..] == later;
      }
    }
  }
}
