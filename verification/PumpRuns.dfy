/**
 * When a pump sends, receives, prefetches and answers, in terms of its streams and counters alone; and what holds
 * over every run of one pump, whoever drives it: a send is never held back unannounced, and a server never sends on
 * a bundle its client has not acknowledged.
 */
module PumpRuns {
  import opened Bytes
  import opened Types
  import opened Wire
  import opened Pad
  import opened Record
  import opened PumpSpec
  import opened PadUse

  // ---- sending ----

  /** Not even one byte fits behind the cursor: 32 go to the key. */
  predicate Full(s: Stream) {
    s.cursor + 33 > 4096
  }

  /** The pump as it stands when it seals: on its next stream if the current one is full. */
  function Sender(p: PumpState): (q: PumpState)
    requires p.Valid() && (Full(p.PlaneOf(p.SendDir()).current) ==> p.PlaneOf(p.SendDir()).next.Some?)
    ensures q.Valid()
  {
    if Full(p.PlaneOf(p.SendDir()).current) then p.Switched(p.SendDir()) else p
  }

  /** A send goes ahead: the stream has room, or a next one is held and, on the server, acknowledged. */
  predicate MaySend(p: PumpState) {
    var plane := p.PlaneOf(p.SendDir());
    Full(plane.current) ==> plane.next.Some? && (p.role == Server ==> p.nextAcked)
  }

  /** Sealing as much as fits where `q` stands makes `sent` and leaves `p'`, and nothing else moves. */
  predicate Seals(mac: Mac, q: PumpState, plaintext: seq<byte>, p': PumpState, sent: SendOutcome) {
    var d := if q.role == Client then ClientToServer else ServerToClient;
    var s := q.PlaneOf(d).current;
    && q.Valid() && !Full(s) && q.sendSeq < U64_MAX
    && var l: nat := Min(|plaintext|, 4096 - 32 - s.cursor);
    && sent == Sent(SealedRecord(mac, s, d, q.sendSeq, plaintext[..l]), l, 4096 - (s.cursor + 32 + l) < 1024)
    && p' == q.SetPlane(d, Plane(s.Spent(l), q.PlaneOf(d).next)).AddConsumed(d, 32 + l).(sendSeq := q.sendSeq + 1)
  }

  lemma SendHereMeans(mac: Mac, q: PumpState, plaintext: seq<byte>)
    requires q.Valid() && plaintext != []
    ensures var (p', r) := SendHere(mac, q, plaintext);
            var s := q.PlaneOf(q.SendDir()).current;
            && (r == Err(Internal) <==> Full(s)) && (r == Err(SequenceExhausted) <==> !Full(s) && q.sendSeq == U64_MAX)
            && (r.Err? ==> p'.closed && (r.error.Internal? || r.error.SequenceExhausted?))
            && (r.Ok? ==> r.value.Sent? && Seals(mac, q, plaintext, p', r.value))
  {
    hide SealedRecord, Burned, Zeros;
  }

  /**
   * When a send is refused, held back, or goes ahead; and going ahead it seals as much as fits in the stream the pump
   * then stands on, and flags the stream it leaves behind iff fewer than 1024 of its 4096 bytes are left.
   */
  lemma SendMeans(mac: Mac, p: PumpState, plaintext: seq<byte>)
    requires p.Valid()
    ensures var (p', r) := Send(mac, p, plaintext);
            && (r == Err(SendClosed) <==> p.closed)
            && (r == Err(EmptyPlaintext) <==> !p.closed && plaintext == [])
            && (r == Ok(Backpressure) <==> !p.closed && plaintext != [] && !MaySend(p))
            && (p.closed || plaintext == [] || !MaySend(p) ==> p' == p)
    ensures !p.closed && plaintext != [] && MaySend(p) ==>
              var (p', r) := Send(mac, p, plaintext);
              var s := Sender(p).PlaneOf(p.SendDir()).current;
              && (r == Err(Internal) <==> Full(s)) && (r == Err(SequenceExhausted) <==> !Full(s) && p.sendSeq == U64_MAX)
              && (r.Err? ==> p'.closed) && (r.Ok? ==> Seals(mac, Sender(p), plaintext, p', r.value))
  {
    hide SendHere, Seals, Burned, Zeros;
    if !p.closed && plaintext != [] && MaySend(p) {
      SendHereMeans(mac, Sender(p), plaintext);
    }
  }

  // ---- receiving ----

  /** The pump as it stands when it opens: on its next stream if the frame names that one, and it is the one after. */
  function Receiver(p: PumpState, frame: seq<byte>): (q: PumpState)
    requires p.Valid()
    ensures q.Valid()
  {
    var plane := p.PlaneOf(p.RecvDir());
    if Decode(frame).Ok? && plane.next.Some? &&
       Decode(frame).value.bundleId == plane.next.value.bundleId == plane.current.bundleId + 1
    then p.Switched(p.RecvDir()) else p
  }

  lemma SeatedIsReceiver(p: PumpState, frame: seq<byte>)
    requires p.Valid()
    ensures Seated(p, frame).Some? ==> Seated(p, frame).value == Receiver(p, frame) && !p.closed
    ensures Seated(p, frame).None? && !p.closed ==>
              || Decode(frame).Err? || Decode(frame).value.direction != p.RecvDir()
              || (Receiver(p, frame) == p && Decode(frame).value.bundleId == p.PlaneOf(p.RecvDir()).current.bundleId + 1)
  {
    hide Decode;
  }

  /** A frame is delivered iff it decodes, is the one the pump waits for, and carries the tag of the key it stands on. */
  lemma ReceiveMeans(mac: Mac, p: PumpState, frame: seq<byte>)
    requires p.Valid()
    ensures Receive(mac, p, frame).1.Ok? <==>
            !p.closed && p.recvSeq < U64_MAX && Expected(mac, Receiver(p, frame), frame)
    ensures var (p', r) := Receive(mac, p, frame);
            r.Ok? ==>
              var q := Receiver(p, frame);
              var d := if p.role == Client then ServerToClient else ClientToServer;
              var s := q.PlaneOf(d).current;
              var l := |r.value.plaintext|;
              && Mixed(Decode(frame).value.ciphertext, s.buf[s.cursor + 32..s.cursor + 32 + l], r.value.plaintext)
              && (r.value.needPad <==> 4096 - (s.cursor + 32 + l) < 1024)
              && s.Fits(l) && p' == q.SetPlane(d, Plane(s.Spent(l), q.PlaneOf(d).next)).AddConsumed(d, 32 + l).(recvSeq := p.recvSeq + 1)
  {
    hide Receive, ReceiveHere, Seated, Receiver, Expected, Mixed, Burned, Zeros;
    ReceiveIsSeated(mac, p, frame);
    SeatedIsReceiver(p, frame);
    if Seated(p, frame).Some? {
      SeatedKeeps(p, frame);
      ReceiveHereMeans(mac, Seated(p, frame).value, frame);
    } else if !p.closed {
      UnseatedIsUnexpected(mac, p, frame);
    }
  }

  lemma UnseatedIsUnexpected(mac: Mac, p: PumpState, frame: seq<byte>)
    requires p.Valid() && Seated(p, frame).None? && !p.closed
    ensures !Expected(mac, Receiver(p, frame), frame)
  {
    hide Decode, Header, MacInput, Burned, Zeros;
  }

  /** Why an open pump does not deliver: as the stream it then stands on refuses the frame, or its numbers are used up. */
  lemma ReceiveRefuses(mac: Mac, p: PumpState, frame: seq<byte>)
    requires p.Valid() && !p.closed && Receive(mac, p, frame).1.Err?
    ensures var q := Receiver(p, frame);
            var o := Open(mac, q.PlaneOf(q.RecvDir()).current, Wanted(q), frame).1;
            Receive(mac, p, frame).1.error == if o.Err? then o.error else OtpError.Closed
  {
    hide Header, MacInput, XorSeq, Burned, Zeros, Decode;
  }

  /** The frame is the next record of the stream the pump receives on, under the tag of that stream's next key. */
  predicate Expected(mac: Mac, q: PumpState, frame: seq<byte>)
    requires q.Valid()
  {
    Decode(frame).Ok? &&
    var d := if q.role == Client then ServerToClient else ClientToServer;
    var s := q.PlaneOf(d).current;
    var rec := Decode(frame).value;
    && rec.direction == d && rec.bundleId == s.bundleId && rec.baseSegment == s.baseSegment
    && rec.recordSeq == q.recvSeq && rec.padOffset == s.cursor && s.cursor + 32 + |rec.ciphertext| <= 4096
    && rec.tag == mac(s.buf[s.cursor..s.cursor + 32], MacInput(Header(rec), rec.ciphertext))
  }

  lemma ReceiveHereMeans(mac: Mac, q: PumpState, frame: seq<byte>)
    requires q.Valid()
    ensures var (p', r) := ReceiveHere(mac, q, frame);
            r.Ok? <==> q.recvSeq < U64_MAX && Expected(mac, q, frame)
    ensures var (p', r) := ReceiveHere(mac, q, frame);
            r.Ok? ==>
              var d := q.RecvDir();
              var s := q.PlaneOf(d).current;
              var l := |r.value.plaintext|;
              && s.Fits(l)
              && Mixed(Decode(frame).value.ciphertext, s.buf[s.cursor + 32..s.cursor + 32 + l], r.value.plaintext)
              && (r.value.needPad <==> 4096 - (s.cursor + 32 + l) < 1024)
              && p' == q.SetPlane(d, Plane(s.Spent(l), q.PlaneOf(d).next)).AddConsumed(d, 32 + l).(recvSeq := q.recvSeq + 1)
  {
    hide Open, Decode, Header, MacInput, XorSeq, Mixed, Burned, Zeros;
    OpenMeans(mac, q.PlaneOf(q.RecvDir()).current, Wanted(q), frame);
  }

  // ---- control ----

  /** The messages a pump obeys, by role and by what it holds and waits for; any other closes it. */
  lemma ControlSucceedsIff(p: PumpState, msg: PadControl, answer: Answer)
    requires p.Valid() && (AsksSource(p, msg) ==> p.nextBundleId < U64_MAX) && Answers(answer, msg)
    ensures var (p', r) := OnControl(p, msg, answer);
            var holds := p.c2s.next.Some? || p.s2c.next.Some?;
            && (r.Ok? <==>
                (!p.closed &&
                 match msg
                 case PadNeed => p.role == Server && (holds || answer.Ok?)
                 case PadOffer(id, base) => p.role == Client && id == p.nextBundleId && !holds && answer.Ok?
                 case PadAck(id) => p.role == Server && p.pendingAck == Some(id)
                 case Close => true))
            && (r.Err? || msg.Close? ==> p'.closed) && (p.closed ==> p' == p)
    ensures OnControl(p, msg, answer).1.Err? ==>
              var e := OnControl(p, msg, answer).1.error;
              var misplaced := p.closed || (if msg.PadOffer? then p.role == Server else p.role == Client);
              && (e == DataError(OtpError.Closed) <==> misplaced)
              && (e == DataError(BundleMismatch) <==>
                  !misplaced && (msg.PadAck? || (msg.PadOffer? && (msg.bundleId != p.nextBundleId || p.HoldsNext()))))
              && (e.DataError? || (answer.Err? && e == SourceError(answer.error)))
  {
    hide Adopted, FreshStream, Zeros;
  }

  /** A server takes a bundle iff it holds no next one; it announces it, and waits for just that acknowledgement. */
  lemma PrefetchMeans(p: PumpState, answer: Answer)
    requires Callable(p, CallPrefetch(answer)) && !p.closed
    ensures var (p', r) := ServerPrefetch(p, answer);
            && (p.role == Client ==> r == Err(ReserveFailed("coordinator-must-be-server")) && p'.closed)
            && (p.role == Server && p.HoldsNext() ==> r == Ok(None) && p' == p)
            && (p.role == Server && !p.HoldsNext() && answer.Err? ==> r == Err(answer.error) && p'.closed)
            && (p.role == Server && !p.HoldsNext() && answer.Ok? ==>
                  var k := p.nextBundleId;
                  && r == Ok(Some(SendPadOffer(k, answer.value.base)))
                  && Gains(p, p', k, answer.value) && !p'.nextAcked && p'.pendingAck == Some(k))
  {
    hide Zeros;
  }

  /** A client that obeys an offer takes the same bundle, and acknowledges just that one. */
  lemma OfferMeans(p: PumpState, id: u64, base: u64, answer: Answer)
    requires Callable(p, CallControl(PadOffer(id, base), answer)) && OnControl(p, PadOffer(id, base), answer).1.Ok?
    ensures var (p', r) := OnControl(p, PadOffer(id, base), answer);
            && r == Ok([SendPadAck(id)]) && Gains(p, p', id, answer.value) && answer.value.base == base
            && p'.nextAcked == p.nextAcked && p'.pendingAck == p.pendingAck
  {
    hide Zeros;
  }

  /** Both directions get their half of the bundle as next stream, the front half going to the server. */
  predicate Gains(p: PumpState, p': PumpState, id: nat, supply: Supply) {
    && p'.c2s == p.c2s.(next := Some(Stream(id, supply.base, supply.flat[..4096], 0)))
    && p'.s2c == p.s2c.(next := Some(Stream(id, supply.base + 64, supply.flat[4096..], 0)))
    && p'.nextBundleId == p.nextBundleId + 1
    && p' == p.(c2s := p'.c2s, s2c := p'.s2c, nextBundleId := p'.nextBundleId, nextAcked := p'.nextAcked,
                pendingAck := p'.pendingAck)
  }

  lemma AckMeans(p: PumpState, id: u64, answer: Answer)
    requires p.Valid() && OnControl(p, PadAck(id), answer).1.Ok?
    ensures OnControl(p, PadAck(id), answer) == (p.(nextAcked := true, pendingAck := None), Ok([]))
  {
  }

  /** From a new pump: both streams of bundle 0 at their beginnings, nothing next, all counters at their first value. */
  lemma NewMeans(role: Role, base: u64, flat: Bundle)
    requires base + 128 <= U64_MAX
    ensures New(role, base, flat) ==
            PumpState(role, Plane(Stream(0, base, flat[..4096], 0), None),
                      Plane(Stream(0, base + 64, flat[4096..], 0), None), 0, 0, 1, false, None, 0, 0, false)
  {
  }

  // ---- no send is held back unannounced ----

  /** The bundle in which a call's send asked for more pad. */
  function Flags(mac: Mac, p: PumpState, c: Call): seq<nat>
    requires Callable(p, c)
  {
    match c
    case CallSend(plaintext) =>
      (match Send(mac, p, plaintext).1
       case Ok(Sent(record, _, true)) => [record.bundleId]
       case _ => [])
    case _ => []
  }

  function Flagged(mac: Mac, p: PumpState, calls: seq<Call>): seq<nat>
    requires CallsPossible(mac, p, calls)
    decreases |calls|
  {
    if |calls| == 0 then [] else Flags(mac, p, calls[0]) + Flagged(mac, After(mac, p, calls[0]), calls[1..])
  }

  /** If little is left to send on, a send has said so; a next stream is whole. */
  predicate Announced(p: PumpState, flagged: seq<nat>) {
    p.closed ||
    var plane := p.PlaneOf(p.SendDir());
    && (plane.current.cursor > 3072 ==> plane.current.bundleId in flagged)
    && (plane.next.Some? ==> plane.next.value.cursor == 0)
  }

  lemma SendKeepsAnnounced(mac: Mac, p: PumpState, plaintext: seq<byte>, flagged: seq<nat>)
    requires p.Valid() && Announced(p, flagged)
    ensures Announced(Send(mac, p, plaintext).0, flagged + Flags(mac, p, CallSend(plaintext)))
  {
    hide Send, SealedRecord, Burned, Zeros;
    SendMeans(mac, p, plaintext);
    if !p.closed && plaintext != [] && MaySend(p) && Send(mac, p, plaintext).1.Ok? {
      var s := Sender(p).PlaneOf(p.SendDir()).current;
      SealedInBundle(mac, s, p.SendDir(), p.sendSeq, plaintext[..Min(|plaintext|, 4064 - s.cursor)]);
    }
  }

  lemma SealedInBundle(mac: Mac, s: Stream, d: Direction, seqNo: u64, plaintext: seq<byte>)
    requires s.Valid() && s.Fits(|plaintext|)
    ensures SealedRecord(mac, s, d, seqNo, plaintext).bundleId == s.bundleId
  {
  }

  lemma ReceiveKeepsAnnounced(mac: Mac, p: PumpState, frame: seq<byte>, flagged: seq<nat>)
    requires p.Valid() && Announced(p, flagged)
    ensures Announced(Receive(mac, p, frame).0, flagged)
  {
    hide Receive, Expected, Mixed, Burned, Zeros, Decode;
    ReceiveMeans(mac, p, frame);
    if Receive(mac, p, frame).1.Err? {
      ReceiveFails(mac, p, frame);
    }
  }

  lemma ReceiveFails(mac: Mac, p: PumpState, frame: seq<byte>)
    requires p.Valid() && Receive(mac, p, frame).1.Err?
    ensures var p' := Receive(mac, p, frame).0; p'.closed || p' == p
  {
    hide Burned, Zeros;
    if !p.closed {
      ErrorClosesUnlessWireFormat(mac, p, frame);
    }
  }

  lemma CallKeepsAnnounced(mac: Mac, p: PumpState, c: Call, flagged: seq<nat>)
    requires Callable(p, c) && Announced(p, flagged)
    ensures Announced(After(mac, p, c), flagged + Flags(mac, p, c))
  {
    hide Send, Receive, Burned, Zeros;
    assert flagged + [] == flagged;
    match c {
      case CallSend(plaintext) => SendKeepsAnnounced(mac, p, plaintext, flagged);
      case CallReceive(frame) => ReceiveKeepsAnnounced(mac, p, frame, flagged);
      case _ =>
    }
  }

  lemma {:induction false} RunKeepsAnnounced(mac: Mac, p: PumpState, calls: seq<Call>, flagged: seq<nat>)
    requires CallsPossible(mac, p, calls) && Announced(p, flagged)
    ensures Announced(Finally(mac, p, calls), flagged + Flagged(mac, p, calls))
    decreases |calls|
  {
    hide After, Flags, Announced;
    if |calls| == 0 {
      assert flagged + [] == flagged;
    } else {
      var p' := After(mac, p, calls[0]);
      CallKeepsAnnounced(mac, p, calls[0], flagged);
      RunKeepsAnnounced(mac, p', calls[1..], flagged + Flags(mac, p, calls[0]));
      assert (flagged + Flags(mac, p, calls[0])) + Flagged(mac, p', calls[1..]) == flagged + Flagged(mac, p, calls);
    }
  }

  /** From a new pump, whatever is called: a send is held back only in a bundle in which an earlier one asked for pad. */
  lemma BackpressureIsAnnounced(mac: Mac, role: Role, base: u64, flat: Bundle, calls: seq<Call>, plaintext: seq<byte>)
    requires base + 128 <= U64_MAX && CallsPossible(mac, New(role, base, flat), calls)
    requires var p := Finally(mac, New(role, base, flat), calls);
             p.Valid() && Send(mac, p, plaintext).1 == Ok(Backpressure)
    ensures var p := Finally(mac, New(role, base, flat), calls);
            p.PlaneOf(p.SendDir()).current.bundleId in Flagged(mac, New(role, base, flat), calls)
  {
    hide Send, Finally, Flagged, CallsPossible, Burned, Zeros;
    var start := New(role, base, flat);
    SendMeans(mac, Finally(mac, start, calls), plaintext);
    RunKeepsAnnounced(mac, start, calls, []);
    assert [] + Flagged(mac, start, calls) == Flagged(mac, start, calls);
  }

  // ---- a server sends only on bundles its client holds ----

  function Acks(p: PumpState, c: Call): seq<nat>
    requires Callable(p, c)
  {
    match c
    case CallControl(PadAck(id), answer) => if OnControl(p, PadAck(id), answer).1.Ok? then [id] else []
    case _ => []
  }

  function Acked(mac: Mac, p: PumpState, calls: seq<Call>): seq<nat>
    requires CallsPossible(mac, p, calls)
    decreases |calls|
  {
    if |calls| == 0 then [] else Acks(p, calls[0]) + Acked(mac, After(mac, p, calls[0]), calls[1..])
  }

  /** What a server sends on was acknowledged, and the gate is open only for a bundle that was. */
  predicate Gated(p: PumpState, acked: seq<nat>) {
    p.closed ||
    (&& p.role == Server && p.nextBundleId > 0
     && (p.s2c.current.bundleId == 0 || p.s2c.current.bundleId in acked)
     && (p.s2c.next.Some? ==> p.s2c.next.value.bundleId == p.nextBundleId - 1)
     && (p.pendingAck.Some? ==> p.pendingAck.value == p.nextBundleId - 1)
     && (p.nextAcked ==> p.nextBundleId - 1 in acked) && (forall k <- acked :: k < p.nextBundleId)
     && (p.s2c.next.Some? && p.nextBundleId - 1 in acked ==> p.nextAcked))
  }

  lemma SendKeepsGated(mac: Mac, p: PumpState, plaintext: seq<byte>, acked: seq<nat>)
    requires p.Valid() && Gated(p, acked)
    ensures Gated(Send(mac, p, plaintext).0, acked)
    ensures var r := Send(mac, p, plaintext).1;
            r.Ok? && r.value.Sent? ==> r.value.record.bundleId == 0 || r.value.record.bundleId in acked
  {
    hide Send, SealedRecord, Burned, Zeros;
    SendMeans(mac, p, plaintext);
    if !p.closed && plaintext != [] && MaySend(p) && Send(mac, p, plaintext).1.Ok? {
      var s := Sender(p).PlaneOf(p.SendDir()).current;
      SealedInBundle(mac, s, p.SendDir(), p.sendSeq, plaintext[..Min(|plaintext|, 4064 - s.cursor)]);
    }
  }

  lemma ReceiveKeepsGated(mac: Mac, p: PumpState, frame: seq<byte>, acked: seq<nat>)
    requires p.Valid() && Gated(p, acked)
    ensures Gated(Receive(mac, p, frame).0, acked)
  {
    hide Receive, Expected, Mixed, Burned, Zeros, Decode;
    ReceiveMeans(mac, p, frame);
    if Receive(mac, p, frame).1.Err? {
      ReceiveFails(mac, p, frame);
    }
  }

  lemma CallKeepsGated(mac: Mac, p: PumpState, c: Call, acked: seq<nat>)
    requires Callable(p, c) && Gated(p, acked)
    ensures Gated(After(mac, p, c), acked + Acks(p, c))
  {
    hide Send, Receive, Burned, Zeros;
    assert acked + [] == acked;
    match c {
      case CallSend(plaintext) => SendKeepsGated(mac, p, plaintext, acked);
      case CallReceive(frame) => ReceiveKeepsGated(mac, p, frame, acked);
      case _ =>
    }
  }

  lemma {:induction false} RunKeepsGated(mac: Mac, p: PumpState, calls: seq<Call>, acked: seq<nat>)
    requires CallsPossible(mac, p, calls) && Gated(p, acked)
    ensures Gated(Finally(mac, p, calls), acked + Acked(mac, p, calls))
    decreases |calls|
  {
    hide After, Acks, Gated;
    if |calls| == 0 {
      assert acked + [] == acked;
    } else {
      var p' := After(mac, p, calls[0]);
      CallKeepsGated(mac, p, calls[0], acked);
      RunKeepsGated(mac, p', calls[1..], acked + Acks(p, calls[0]));
      assert (acked + Acks(p, calls[0])) + Acked(mac, p', calls[1..]) == acked + Acked(mac, p, calls);
    }
  }

  /**
   * From a new server, whatever it is fed: beyond bundle 0 it sends only on bundles it saw acknowledged, and with its
   * stream full it is held back exactly when it holds no next one that was.
   */
  lemma ServerSendsOnAcked(mac: Mac, base: u64, flat: Bundle, calls: seq<Call>, plaintext: seq<byte>)
    requires base + 128 <= U64_MAX && CallsPossible(mac, New(Server, base, flat), calls)
    requires Finally(mac, New(Server, base, flat), calls).Valid() && !Finally(mac, New(Server, base, flat), calls).closed
    ensures var p := Finally(mac, New(Server, base, flat), calls);
            var r := Send(mac, p, plaintext).1;
            var acked := Acked(mac, New(Server, base, flat), calls);
            && (r.Ok? && r.value.Sent? ==> r.value.record.bundleId == 0 || r.value.record.bundleId in acked)
            && (r == Ok(Backpressure) <==>
                plaintext != [] && Full(p.s2c.current) && !(p.s2c.next.Some? && p.s2c.next.value.bundleId in acked))
  {
    hide Send, Finally, Acked, CallsPossible, Burned, Zeros;
    var start := New(Server, base, flat);
    RunKeepsGated(mac, start, calls, []);
    assert [] + Acked(mac, start, calls) == Acked(mac, start, calls);
    SendKeepsGated(mac, Finally(mac, start, calls), plaintext, Acked(mac, start, calls));
    SendMeans(mac, Finally(mac, start, calls), plaintext);
  }

  // ---- used pad is gone ----

  /** No byte behind the cursor is left. */
  predicate Wiped(s: Stream) {
    forall o :: 0 <= o < s.cursor && o < 4096 ==> s.buf[o] == 0
  }

  predicate PlaneWiped(p: Plane) {
    Wiped(p.current) && (p.next.Some? ==> Wiped(p.next.value))
  }

  /** A pump that has closed keeps no pad at all. */
  predicate PumpWiped(p: PumpState) {
    && PlaneWiped(p.c2s) && PlaneWiped(p.s2c)
    && (p.closed ==> !p.HoldsNext() && p.c2s.current.cursor == 4096 && p.s2c.current.cursor == 4096)
  }

  lemma ClosedIsWiped(p: PumpState)
    ensures PumpWiped(p.Closed())
  {
  }

  lemma SpentIsWiped(s: Stream, l: nat)
    requires s.Valid() && s.Fits(l) && Wiped(s)
    ensures Wiped(s.Spent(l))
  {
  }

  lemma SendHereKeepsWiped(mac: Mac, q: PumpState, plaintext: seq<byte>)
    requires q.Valid() && PumpWiped(q) && !q.closed && plaintext != []
    ensures PumpWiped(SendHere(mac, q, plaintext).0)
  {
    hide SealedRecord, Wiped, Burned, Zeros;
    var d := q.SendDir();
    var s := q.PlaneOf(d).current;
    var l := Min(|plaintext|, s.MaxRecordLen());
    ClosedIsWiped(q);
    if l > 0 {
      SpentIsWiped(s, l);
      ClosedIsWiped(q.SetPlane(d, q.PlaneOf(d).(current := s.Spent(l))));
    }
  }

  lemma OpenKeepsWiped(mac: Mac, s: Stream, want: OpenExpectation, frame: seq<byte>)
    requires s.Valid() && Wiped(s)
    ensures Wiped(Open(mac, s, want, frame).0)
  {
    hide Decode, Header, MacInput, XorSeq, Burned, Wiped;
    var l := if Open(mac, s, want, frame).1.Ok? then |Open(mac, s, want, frame).1.value| else 0;
    if s.Fits(l) {
      SpentIsWiped(s, l);
    }
    if s.Fits(0) {
      TakenIsWiped(s);
    }
  }

  lemma TakenIsWiped(s: Stream)
    requires s.Valid() && s.Fits(0) && Wiped(s)
    ensures Wiped(s.KeyTaken())
  {
  }

  lemma ReceiveHereKeepsWiped(mac: Mac, q: PumpState, frame: seq<byte>)
    requires q.Valid() && PumpWiped(q) && !q.closed
    ensures PumpWiped(ReceiveHere(mac, q, frame).0)
  {
    hide Decode, Open, Wiped, Burned, Zeros;
    var d := q.RecvDir();
    var s := q.PlaneOf(d).current;
    OpenKeepsWiped(mac, s, Wanted(q), frame);
    var opened' := Open(mac, s, Wanted(q), frame);
    ClosedIsWiped(q);
    if opened'.1.Ok? {
      ClosedIsWiped(q.SetPlane(d, q.PlaneOf(d).(current := opened'.0)).AddConsumed(d, MAC_KEY_LEN + |opened'.1.value|));
    }
  }

  lemma ReceiveKeepsWiped(mac: Mac, p: PumpState, frame: seq<byte>)
    requires p.Valid() && PumpWiped(p)
    ensures PumpWiped(Receive(mac, p, frame).0)
  {
    hide Receive, ReceiveHere, Receiver, Seated, Wiped, Burned, Zeros;
    ReceiveIsSeated(mac, p, frame);
    SeatedIsReceiver(p, frame);
    ClosedIsWiped(p);
    if Seated(p, frame).Some? {
      ReceiverKeepsWiped(p, frame);
      ReceiveHereKeepsWiped(mac, Receiver(p, frame), frame);
    }
  }

  lemma ReceiverKeepsWiped(p: PumpState, frame: seq<byte>)
    requires p.Valid() && PumpWiped(p) && !p.closed
    ensures PumpWiped(Receiver(p, frame)) && !Receiver(p, frame).closed
  {
    hide Decode, Wiped;
  }

  lemma CallKeepsWiped(mac: Mac, p: PumpState, c: Call)
    requires Callable(p, c) && PumpWiped(p)
    ensures PumpWiped(After(mac, p, c))
  {
    hide SendHere, Receive, Wiped, Burned, Zeros, Adopted;
    ClosedIsWiped(p);
    match c {
      case CallSend(plaintext) =>
        if !p.closed && plaintext != [] && MaySend(p) {
          SendHereKeepsWiped(mac, Sender(p), plaintext);
        }
      case CallReceive(frame) => ReceiveKeepsWiped(mac, p, frame);
      case CallPrefetch(answer) =>
        if answer.Ok? {
          AdoptedIsWiped(p, answer.value);
        }
      case CallControl(msg, answer) =>
        if answer.Ok? {
          AdoptedIsWiped(p, answer.value);
        }
      case CallClose =>
    }
  }

  lemma AdoptedIsWiped(p: PumpState, supply: Supply)
    requires PumpWiped(p)
    ensures !p.closed ==> PumpWiped(Adopted(p, p.nextBundleId, supply.base, supply.flat))
  {
    hide HalfOf;
  }

  /**
   * From a new pump, whatever is called: every pad byte behind a cursor has been zeroed, and a pump that has closed,
   * for whatever reason, holds no pad byte at all.
   */
  lemma {:induction false} UsedPadIsGone(mac: Mac, p: PumpState, calls: seq<Call>)
    requires CallsPossible(mac, p, calls) && PumpWiped(p)
    ensures PumpWiped(Finally(mac, p, calls))
    decreases |calls|
  {
    hide After, PumpWiped;
    if |calls| > 0 {
      CallKeepsWiped(mac, p, calls[0]);
      UsedPadIsGone(mac, After(mac, p, calls[0]), calls[1..]);
    }
  }

  lemma NewIsWiped(role: Role, base: u64, flat: Bundle)
    requires base + 128 <= U64_MAX
    ensures PumpWiped(New(role, base, flat))
  {
  }
}
