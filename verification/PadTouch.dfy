/** The stretches of `PadUse` are the pad itself: they are the bytes a call burns, and the only ones its result hangs on. */
module PadTouch {
  import opened Bytes
  import opened Types
  import opened Wire
  import opened Pad
  import opened Record
  import opened PumpSpec
  import opened PadUse

  predicate Covers(u: Option<Use>, d: Direction, bundle: nat, o: nat) {
    u.Some? && u.value.direction == d && u.value.bundleId == bundle && u.value.from <= o < u.value.to
  }

  /** `s'` is `s` with exactly the bytes of `u` zeroed. */
  predicate BurntBy(s: Stream, s': Stream, d: Direction, u: Option<Use>) {
    && s'.bundleId == s.bundleId && s'.baseSegment == s.baseSegment
    && forall o :: 0 <= o < PAD_HALF ==> s'.buf[o] == if Covers(u, d, s.bundleId, o) then 0 else s.buf[o]
  }

  /** The stream of a bundle that a pump holds for a direction. */
  function Held(p: PumpState, d: Direction, bundle: nat): Option<Stream> {
    var plane := p.PlaneOf(d);
    if plane.current.bundleId == bundle then Some(plane.current)
    else if plane.next.Some? && plane.next.value.bundleId == bundle then plane.next
    else None
  }

  /** The current stream of `p'` is one that `p` held, less exactly the bytes of `u`; a next stream is as it was. */
  predicate Burns(p: PumpState, p': PumpState, d: Direction, u: Option<Use>) {
    var s' := p'.PlaneOf(d).current;
    && Held(p, d, s'.bundleId).Some? && BurntBy(Held(p, d, s'.bundleId).value, s', d, u)
    && (p'.PlaneOf(d).next.Some? && p.PlaneOf(d).next.Some? ==> p'.PlaneOf(d).next == p.PlaneOf(d).next)
  }

  lemma SpentBurns(s: Stream, d: Direction, l: nat)
    requires s.Valid() && s.Fits(l)
    ensures BurntBy(s, s.Spent(l), d, Some(SealUse(s, d, l)))
  {
  }

  lemma UntouchedBurns(s: Stream, d: Direction, u: Option<Use>)
    requires u.Some? ==> u.value.direction != d || u.value.bundleId != s.bundleId
    ensures BurntBy(s, s, d, u)
  {
  }

  /** Opening burns exactly the bytes it is said to use, whatever comes of it. */
  lemma OpenBurnsItsUse(mac: Mac, s: Stream, want: OpenExpectation, frame: seq<byte>)
    requires s.Valid()
    ensures BurntBy(s, Open(mac, s, want, frame).0, want.direction, OpenUse(mac, s, want, frame))
  {
    hide Decode, Header, MacInput, XorSeq;
  }

  lemma SendHereBurns(mac: Mac, p: PumpState, plaintext: seq<byte>, d: Direction)
    requires Ordered(p) && !p.closed && plaintext != [] && !SendHere(mac, p, plaintext).0.closed
    ensures var s := p.PlaneOf(p.SendDir()).current;
            var l := Min(|plaintext|, s.MaxRecordLen());
            l > 0 && Burns(p, SendHere(mac, p, plaintext).0, d, Some(SealUse(s, p.SendDir(), l)))
  {
    hide SealedRecord, BurntBy, Burned, Zeros;
    var s := p.PlaneOf(p.SendDir()).current;
    var l := Min(|plaintext|, s.MaxRecordLen());
    if l > 0 {
      SpentBurns(s, p.SendDir(), l);
      UntouchedBurns(p.PlaneOf(d).current, d, if d == p.SendDir() then None else Some(SealUse(s, p.SendDir(), l)));
    }
  }

  lemma ReceiveHereBurns(mac: Mac, p: PumpState, frame: seq<byte>, d: Direction)
    requires Ordered(p) && !p.closed && !ReceiveHere(mac, p, frame).0.closed
    ensures Burns(p, ReceiveHere(mac, p, frame).0, d, OpenUse(mac, p.PlaneOf(p.RecvDir()).current, Wanted(p), frame))
  {
    hide Decode, Open, OpenUse, BurntBy, Burned, Zeros;
    var s := p.PlaneOf(p.RecvDir()).current;
    OpenBurnsItsUse(mac, s, Wanted(p), frame);
    OpenMoves(mac, s, Wanted(p), frame);
    UntouchedBurns(p.PlaneOf(d).current, d, if d == p.RecvDir() then None else OpenUse(mac, s, Wanted(p), frame));
  }

  /** A switch moves streams and burns nothing, so what is burnt after it is burnt from what was held before it. */
  lemma SwitchThenBurns(p: PumpState, p': PumpState, e: Direction, d: Direction, u: Option<Use>)
    requires Ordered(p) && !p.closed && p.PlaneOf(e).next.Some? && Burns(p.Switched(e), p', d, u)
    requires p'.PlaneOf(e).next == None
    ensures Burns(p, p', d, u)
  {
    hide BurntBy;
  }

  lemma SendBurns(mac: Mac, p: PumpState, plaintext: seq<byte>, d: Direction)
    requires Callable(p, CallSend(plaintext)) && Ordered(p) && !Send(mac, p, plaintext).0.closed
    ensures Burns(p, Send(mac, p, plaintext).0, d, UsedBy(mac, p, CallSend(plaintext)))
  {
    hide SendHere, BurntBy, Burned, Zeros;
    var e := p.SendDir();
    UntouchedBurns(p.PlaneOf(d).current, d, None);
    if plaintext != [] {
      if p.PlaneOf(e).current.MaxRecordLen() != 0 {
        SendHereBurns(mac, p, plaintext, d);
      } else if p.NextReadyForSend(e) {
        SwitchAdvances(p, e);
        SendHereBurns(mac, p.Switched(e), plaintext, d);
        SendHereKeepsNext(mac, p.Switched(e), plaintext);
        SwitchThenBurns(p, SendHere(mac, p.Switched(e), plaintext).0, e, d, UsedBy(mac, p, CallSend(plaintext)));
      }
    }
  }

  lemma SendHereKeepsNext(mac: Mac, p: PumpState, plaintext: seq<byte>)
    requires p.Valid() && !SendHere(mac, p, plaintext).0.closed
    ensures SendHere(mac, p, plaintext).0.PlaneOf(p.SendDir()).next == p.PlaneOf(p.SendDir()).next
  {
    hide SealedRecord, Burned, Zeros;
  }

  lemma ReceiveHereKeepsNext(mac: Mac, p: PumpState, frame: seq<byte>)
    requires p.Valid() && !ReceiveHere(mac, p, frame).0.closed
    ensures ReceiveHere(mac, p, frame).0.PlaneOf(p.RecvDir()).next == p.PlaneOf(p.RecvDir()).next
  {
    hide Open, Burned, Zeros;
  }

  lemma SeatedIs(p: PumpState, frame: seq<byte>)
    requires Seated(p, frame).Some?
    ensures Seated(p, frame).value == p ||
            (p.PlaneOf(p.RecvDir()).next.Some? && Seated(p, frame).value == p.Switched(p.RecvDir()))
    ensures !p.closed
  {
    hide Decode;
  }

  lemma ReceiveBurns(mac: Mac, p: PumpState, frame: seq<byte>, d: Direction)
    requires Callable(p, CallReceive(frame)) && Ordered(p) && !Receive(mac, p, frame).0.closed
    ensures Burns(p, Receive(mac, p, frame).0, d, UsedBy(mac, p, CallReceive(frame)))
  {
    hide Receive, ReceiveHere, OpenUse, Seated, BurntBy, Burned, Zeros;
    UntouchedBurns(p.PlaneOf(d).current, d, None);
    ReceiveIsSeated(mac, p, frame);
    if Seated(p, frame).Some? {
      var q := Seated(p, frame).value;
      SeatedIs(p, frame);
      SeatedAdvances(p, frame);
      SeatedKeeps(p, frame);
      ReceiveHereBurns(mac, q, frame, d);
      if q != p {
        ReceiveHereKeepsNext(mac, q, frame);
        SwitchThenBurns(p, ReceiveHere(mac, q, frame).0, p.RecvDir(), d, UsedBy(mac, p, CallReceive(frame)));
      }
    }
  }

  /**
   * What a call that leaves the pump open does to its pad: the bytes of its use are zeroed and no other byte changes,
   * in either direction and in either bundle held.
   */
  lemma CallBurnsItsUse(mac: Mac, p: PumpState, c: Call, d: Direction)
    requires Callable(p, c) && Ordered(p) && !After(mac, p, c).closed
    ensures Burns(p, After(mac, p, c), d, UsedBy(mac, p, c))
  {
    hide Send, Receive, Burns, ServerPrefetch, OnControl, Ordered;
    match c {
      case CallSend(plaintext) => SendBurns(mac, p, plaintext, d);
      case CallReceive(frame) => ReceiveBurns(mac, p, frame, d);
      case _ => OtherCallsBurnNothing(mac, p, c, d);
    }
  }

  lemma OtherCallsBurnNothing(mac: Mac, p: PumpState, c: Call, d: Direction)
    requires Callable(p, c) && Ordered(p) && !After(mac, p, c).closed && !c.CallSend? && !c.CallReceive?
    ensures Burns(p, After(mac, p, c), d, None)
  {
    hide BurntBy, Burned, Zeros, FreshStream;
    UntouchedBurns(p.PlaneOf(d).current, d, None);
  }

  // ---- what a result depends on ----

  /** The same place in the same bundle, and the same bytes on `u` if it is cut from here. */
  predicate SameOn(s: Stream, t: Stream, d: Direction, u: Option<Use>) {
    && s.bundleId == t.bundleId && s.baseSegment == t.baseSegment && s.cursor == t.cursor
    && (u.Some? && u.value.direction == d && u.value.bundleId == s.bundleId ==>
          u.value.from <= u.value.to <= PAD_HALF && s.buf[u.value.from..u.value.to] == t.buf[u.value.from..u.value.to])
  }

  predicate SamePlaneOn(x: Plane, y: Plane, d: Direction, u: Option<Use>) {
    && SameOn(x.current, y.current, d, u) && (x.next.Some? <==> y.next.Some?)
    && (x.next.Some? ==> SameOn(x.next.value, y.next.value, d, u))
  }

  /** Two pumps alike but for pad bytes outside `u`. */
  predicate AgreeOn(p: PumpState, q: PumpState, u: Option<Use>) {
    && q.(c2s := p.c2s, s2c := p.s2c) == p
    && SamePlaneOn(p.c2s, q.c2s, ClientToServer, u) && SamePlaneOn(p.s2c, q.s2c, ServerToClient, u)
  }

  lemma SameParts(x: seq<byte>, y: seq<byte>, i: nat, j: nat, k: nat)
    requires i <= j <= k <= |x| && k <= |y| && x[i..k] == y[i..k]
    ensures x[i..j] == y[i..j] && x[j..k] == y[j..k]
  {
    assert x[i..j] == x[i..k][..j - i] && y[i..j] == y[i..k][..j - i];
    assert x[j..k] == x[i..k][j - i..] && y[j..k] == y[i..k][j - i..];
  }

  lemma SameCut(s: Stream, t: Stream, l: nat)
    requires s.Valid() && t.Valid() && s.cursor == t.cursor && s.Fits(l)
    requires s.buf[s.cursor..s.cursor + MAC_KEY_LEN + l] == t.buf[s.cursor..s.cursor + MAC_KEY_LEN + l]
    ensures s.MacKey() == t.MacKey() && s.PadBytes(l) == t.PadBytes(l)
  {
    SameParts(s.buf, t.buf, s.cursor, s.cursor + MAC_KEY_LEN, s.cursor + MAC_KEY_LEN + l);
  }

  lemma SendHereSame(mac: Mac, p: PumpState, q: PumpState, plaintext: seq<byte>)
    requires p.Valid() && q.Valid() && plaintext != []
    requires var s := p.PlaneOf(p.SendDir()).current;
             var l := Min(|plaintext|, s.MaxRecordLen());
             AgreeOn(p, q, if l == 0 then None else Some(SealUse(s, p.SendDir(), l)))
    ensures SendHere(mac, p, plaintext).1 == SendHere(mac, q, plaintext).1
  {
    hide XorSeq, Burned, Zeros, MacInput, CanonicalHeader;
    var d := p.SendDir();
    var s, t := p.PlaneOf(d).current, q.PlaneOf(d).current;
    var l := Min(|plaintext|, s.MaxRecordLen());
    if l > 0 {
      SameCut(s, t, l);
    }
  }

  lemma SwitchedAgree(p: PumpState, q: PumpState, e: Direction, u: Option<Use>)
    requires AgreeOn(p, q, u) && p.PlaneOf(e).next.Some?
    ensures AgreeOn(p.Switched(e), q.Switched(e), u)
  {
    hide SameOn;
  }

  /** Places, counters and flags are the same. */
  lemma AlikeBesides(p: PumpState, q: PumpState, u: Option<Use>)
    requires AgreeOn(p, q, u)
    ensures q.closed == p.closed && q.role == p.role && q.nextAcked == p.nextAcked
    ensures forall d: Direction :: SamePlaces(p.PlaneOf(d), q.PlaneOf(d))
  {
  }

  predicate SamePlaces(x: Plane, y: Plane) {
    && x.current.bundleId == y.current.bundleId && x.current.baseSegment == y.current.baseSegment
    && x.current.cursor == y.current.cursor && (x.next.Some? <==> y.next.Some?)
    && (x.next.Some? ==> x.next.value.bundleId == y.next.value.bundleId && x.next.value.cursor == y.next.value.cursor
                         && x.next.value.baseSegment == y.next.value.baseSegment)
  }

  lemma SendSwitchedSame(mac: Mac, p: PumpState, q: PumpState, plaintext: seq<byte>)
    requires p.Valid() && q.Valid() && plaintext != [] && p.PlaneOf(p.SendDir()).next.Some?
    requires p.SendDir() == q.SendDir() && q.PlaneOf(p.SendDir()).next.Some?
    requires var s := p.Switched(p.SendDir()).PlaneOf(p.SendDir()).current;
             var l := Min(|plaintext|, s.MaxRecordLen());
             AgreeOn(p, q, if l == 0 then None else Some(SealUse(s, p.SendDir(), l)))
    ensures SendHere(mac, p.Switched(p.SendDir()), plaintext).1 == SendHere(mac, q.Switched(p.SendDir()), plaintext).1
  {
    hide SendHere, AgreeOn;
    var s := p.Switched(p.SendDir()).PlaneOf(p.SendDir()).current;
    var l := Min(|plaintext|, s.MaxRecordLen());
    SwitchedAgree(p, q, p.SendDir(), if l == 0 then None else Some(SealUse(s, p.SendDir(), l)));
    SendHereSame(mac, p.Switched(p.SendDir()), q.Switched(p.SendDir()), plaintext);
  }

  lemma SendSame(mac: Mac, p: PumpState, q: PumpState, plaintext: seq<byte>)
    requires p.Valid() && q.Valid() && AgreeOn(p, q, UsedBy(mac, p, CallSend(plaintext)))
    ensures Send(mac, p, plaintext).1 == Send(mac, q, plaintext).1
    ensures UsedBy(mac, q, CallSend(plaintext)) == UsedBy(mac, p, CallSend(plaintext))
  {
    hide SendHere, Burned, Zeros, AgreeOn;
    var e := p.SendDir();
    AlikeBesides(p, q, UsedBy(mac, p, CallSend(plaintext)));
    if !p.closed && plaintext != [] {
      if p.PlaneOf(e).current.MaxRecordLen() != 0 {
        SendHereSame(mac, p, q, plaintext);
      } else if p.NextReadyForSend(e) {
        SendSwitchedSame(mac, p, q, plaintext);
      }
    }
  }

  /** Opening in two streams alike on what the first one uses gives one result. */
  lemma OpenSame(mac: Mac, s: Stream, t: Stream, want: OpenExpectation, frame: seq<byte>)
    requires s.Valid() && t.Valid() && SameOn(s, t, want.direction, OpenUse(mac, s, want, frame))
    ensures Open(mac, s, want, frame).1 == Open(mac, t, want, frame).1
    ensures OpenUse(mac, t, want, frame) == OpenUse(mac, s, want, frame)
    ensures Open(mac, s, want, frame).0.cursor == Open(mac, t, want, frame).0.cursor
  {
    hide Decode, Header, MacInput, XorSeq, Burned;
    var u := OpenUse(mac, s, want, frame);
    if u.Some? {
      SameCut(s, t, u.value.to - u.value.from - MAC_KEY_LEN);
    }
  }

  lemma ReceiveHereSame(mac: Mac, p: PumpState, q: PumpState, frame: seq<byte>)
    requires p.Valid() && q.Valid()
    requires AgreeOn(p, q, OpenUse(mac, p.PlaneOf(p.RecvDir()).current, Wanted(p), frame))
    ensures ReceiveHere(mac, p, frame).1 == ReceiveHere(mac, q, frame).1
    ensures OpenUse(mac, q.PlaneOf(q.RecvDir()).current, Wanted(q), frame)
            == OpenUse(mac, p.PlaneOf(p.RecvDir()).current, Wanted(p), frame)
  {
    hide Decode, Open, OpenUse, Burned, Zeros;
    OpenSame(mac, p.PlaneOf(p.RecvDir()).current, q.PlaneOf(q.RecvDir()).current, Wanted(p), frame);
  }

  lemma SeatedAgree(p: PumpState, q: PumpState, frame: seq<byte>, u: Option<Use>)
    requires AgreeOn(p, q, u)
    ensures Seated(p, frame).Some? <==> Seated(q, frame).Some?
    ensures Seated(p, frame).Some? ==> AgreeOn(Seated(p, frame).value, Seated(q, frame).value, u)
  {
    hide Decode;
    if p.PlaneOf(p.RecvDir()).next.Some? {
      SwitchedAgree(p, q, p.RecvDir(), u);
    }
  }

  /** A frame refused before it reaches a stream is refused the same way. */
  lemma UnseatedSame(mac: Mac, p: PumpState, q: PumpState, frame: seq<byte>, u: Option<Use>)
    requires p.Valid() && q.Valid() && AgreeOn(p, q, u) && Seated(p, frame).None?
    ensures Receive(mac, p, frame).1 == Receive(mac, q, frame).1
  {
    hide Decode, ReceiveHere, Burned, Zeros;
  }

  lemma ReceiveSame(mac: Mac, p: PumpState, q: PumpState, frame: seq<byte>)
    requires p.Valid() && q.Valid() && AgreeOn(p, q, UsedBy(mac, p, CallReceive(frame)))
    ensures Receive(mac, p, frame).1 == Receive(mac, q, frame).1
    ensures UsedBy(mac, q, CallReceive(frame)) == UsedBy(mac, p, CallReceive(frame))
  {
    hide Receive, ReceiveHere, OpenUse, Seated, AgreeOn, Burned, Zeros;
    var u := UsedBy(mac, p, CallReceive(frame));
    SeatedAgree(p, q, frame, u);
    ReceiveIsSeated(mac, p, frame);
    ReceiveIsSeated(mac, q, frame);
    AlikeBesides(p, q, u);
    if Seated(p, frame).Some? {
      SeatedKeeps(p, frame);
      SeatedKeeps(q, frame);
      ReceiveHereSame(mac, Seated(p, frame).value, Seated(q, frame).value, frame);
    } else {
      UnseatedSame(mac, p, q, frame, u);
    }
  }

  /** What a call gives its caller. */
  datatype Outcome =
    | OfSend(sent: Result<SendOutcome, SendError>)
    | OfReceive(received: Result<Received, OtpError>)
    | OfPrefetch(offered: Result<Option<PumpAction>, PadSourceError>)
    | OfControl(actions: Result<seq<PumpAction>, PumpError>)
    | OfClose

  function ResultOf(mac: Mac, p: PumpState, c: Call): Outcome
    requires Callable(p, c)
  {
    match c
    case CallSend(plaintext) => OfSend(Send(mac, p, plaintext).1)
    case CallReceive(frame) => OfReceive(Receive(mac, p, frame).1)
    case CallPrefetch(answer) => OfPrefetch(ServerPrefetch(p, answer).1)
    case CallControl(msg, answer) => OfControl(OnControl(p, msg, answer).1)
    case CallClose => OfClose
  }

  /** Records and plaintexts depend on no pad byte but those of the call's use. */
  lemma ResultDependsOnUseOnly(mac: Mac, p: PumpState, q: PumpState, c: Call)
    requires Callable(p, c) && Callable(q, c) && AgreeOn(p, q, UsedBy(mac, p, c))
    ensures ResultOf(mac, q, c) == ResultOf(mac, p, c) && UsedBy(mac, q, c) == UsedBy(mac, p, c)
  {
    hide Send, Receive, Burned, Zeros, FreshStream, SameOn;
    match c {
      case CallSend(plaintext) => SendSame(mac, p, q, plaintext);
      case CallReceive(frame) => ReceiveSame(mac, p, q, frame);
      case _ =>
    }
  }
}
