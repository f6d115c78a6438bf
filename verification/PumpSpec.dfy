/** The state of a full-OTP data pump and what each operation does to it, as functions. */
module PumpSpec {
  import opened Bytes
  import opened Types
  import opened Wire
  import opened Pad
  import opened Record

  datatype PadControl =
    | PadOffer(bundleId: u64, baseSegment: u64)
    | PadAck(ackedId: u64)
    | PadNeed
    | Close

  datatype PumpAction = SendPadOffer(bundleId: u64, baseSegment: u64) | SendPadAck(ackedId: u64)

  datatype SendOutcome = Sent(record: OtpDataRecord, consumedPlaintext: nat, needPad: bool) | Backpressure

  datatype SendError = SendClosed | EmptyPlaintext | SequenceExhausted | Internal

  datatype Received = Received(plaintext: seq<byte>, needPad: bool)

  datatype PadSourceError = PointerMismatch(local: nat, announced: nat) | ReserveFailed(reason: string)

  /** What a pad source answers when asked for a bundle. */
  datatype Supply = Supply(base: u64, flat: Bundle)

  type Answer = a: Result<Supply, PadSourceError> | a.Ok? ==> a.value.base + 128 <= U64_MAX
    witness Err(ReserveFailed("none"))

  datatype PumpError = DataError(error: OtpError) | SourceError(source: PadSourceError)

  /** The current stream of a direction, and the next one if it is held. */
  datatype Plane = Plane(current: Stream, next: Option<Stream>) {
    predicate Valid() {
      current.Valid() && (next.Some? ==> next.value.Valid())
    }
  }

  datatype PumpState = PumpState(
    role: Role, c2s: Plane, s2c: Plane, sendSeq: u64, recvSeq: u64, nextBundleId: nat, nextAcked: bool,
    pendingAck: Option<u64>, consumedC2s: nat, consumedS2c: nat, closed: bool)
  {
    predicate Valid() {
      c2s.Valid() && s2c.Valid() && nextBundleId <= U64_MAX
    }

    function PlaneOf(d: Direction): Plane {
      if d == ClientToServer then c2s else s2c
    }

    function SetPlane(d: Direction, p: Plane): PumpState {
      if d == ClientToServer then this.(c2s := p) else this.(s2c := p)
    }

    function ConsumedOf(d: Direction): nat {
      if d == ClientToServer then consumedC2s else consumedS2c
    }

    function AddConsumed(d: Direction, n: nat): PumpState {
      if d == ClientToServer then this.(consumedC2s := consumedC2s + n) else this.(consumedS2c := consumedS2c + n)
    }

    function SendDir(): Direction {
      role.SendDirection()
    }

    function RecvDir(): Direction {
      SendDir().Opposite()
    }

    predicate HoldsNext() {
      c2s.next.Some? || s2c.next.Some?
    }

    /** All material zeroed and dropped, the pump closed. */
    function Closed(): PumpState {
      this.(c2s := Plane(c2s.current.Wasted(), None), s2c := Plane(s2c.current.Wasted(), None), closed := true)
    }

    /** A direction moves on to its next bundle; once both have, the acknowledgement gate is reset. */
    function Switched(d: Direction): PumpState
      requires PlaneOf(d).next.Some?
    {
      var moved := SetPlane(d, Plane(PlaneOf(d).next.value, None));
      if moved.HoldsNext() then moved else moved.(nextAcked := false)
    }

    predicate NextReadyForSend(d: Direction) {
      PlaneOf(d).next.Some? && (role == Client || nextAcked)
    }
  }

  function New(role: Role, base: u64, flat: Bundle): PumpState
    requires base + 128 <= U64_MAX
  {
    PumpState(role, Plane(FreshStream(0, base, flat, ClientToServer), None),
              Plane(FreshStream(0, base, flat, ServerToClient), None), 0, 0, 1, false, None, 0, 0, false)
  }

  // ---- sending ----

  function Send(mac: Mac, p: PumpState, plaintext: seq<byte>): (PumpState, Result<SendOutcome, SendError>)
    requires p.Valid()
  {
    if p.closed then (p, Err(SendClosed))
    else if plaintext == [] then (p, Err(EmptyPlaintext))
    else
      var d := p.SendDir();
      var full := p.PlaneOf(d).current.MaxRecordLen() == 0;
      if full && !p.NextReadyForSend(d) then (p, Ok(Backpressure))
      else SendHere(mac, if full then p.Switched(d) else p, plaintext)
  }

  /** Seals as much as fits in the current stream. */
  function SendHere(mac: Mac, p: PumpState, plaintext: seq<byte>): (PumpState, Result<SendOutcome, SendError>)
    requires p.Valid()
  {
    var d := p.SendDir();
    var s := p.PlaneOf(d).current;
    var l := Min(|plaintext|, s.MaxRecordLen());
    if l == 0 then (p.Closed(), Err(Internal))
    else
      var record := SealedRecord(mac, s, d, p.sendSeq, plaintext[..l]);
      var spent := p.SetPlane(d, p.PlaneOf(d).(current := s.Spent(l)));
      if p.sendSeq == U64_MAX then (spent.Closed(), Err(SequenceExhausted))
      else
        (spent.(sendSeq := p.sendSeq + 1).AddConsumed(d, MAC_KEY_LEN + l),
         Ok(Sent(record, l, s.Spent(l).BelowLowWater())))
  }

  // ---- receiving ----

  function Receive(mac: Mac, p: PumpState, frame: seq<byte>): (PumpState, Result<Received, OtpError>)
    requires p.Valid()
  {
    if p.closed then (p, Err(OtpError.Closed))
    else
      match Decode(frame)
      case Err(e) => (p, Err(WireFormat(e)))
      case Ok(peek) =>
        var d := p.RecvDir();
        var plane := p.PlaneOf(d);
        if peek.direction != d then (p.Closed(), Err(WrongDirection))
        else if peek.bundleId == plane.current.bundleId + 1 then
          if plane.next.Some? && plane.next.value.bundleId == peek.bundleId then
            ReceiveHere(mac, p.Switched(d), frame)
          else
            (p.Closed(), Err(BundleMismatch))
        else ReceiveHere(mac, p, frame)
  }

  /** Opens the frame against the current stream. */
  function ReceiveHere(mac: Mac, p: PumpState, frame: seq<byte>): (PumpState, Result<Received, OtpError>)
    requires p.Valid()
  {
    var d := p.RecvDir();
    var s := p.PlaneOf(d).current;
    var (s', opened') := Open(mac, s, OpenExpectation(d, s.bundleId, s.baseSegment, p.recvSeq), frame);
    match opened'
    case Err(e) => (p.Closed(), Err(e))
    case Ok(plaintext) =>
      var spent := p.SetPlane(d, p.PlaneOf(d).(current := s')).AddConsumed(d, MAC_KEY_LEN + |plaintext|);
      if p.recvSeq == U64_MAX then (spent.Closed(), Err(OtpError.Closed))
      else (spent.(recvSeq := p.recvSeq + 1), Ok(Received(plaintext, s'.BelowLowWater())))
  }

  // ---- control ----

  /** Reserve, hold both halves as next, and announce; a failed reservation closes the pump. */
  function Prefetch(p: PumpState, answer: Answer): (PumpState, Result<Option<PumpAction>, PadSourceError>)
    requires p.Valid() && p.nextBundleId < U64_MAX
  {
    match answer
    case Err(e) => (p.Closed(), Err(e))
    case Ok(supply) =>
      var id := p.nextBundleId;
      (Adopted(p, id, supply.base, supply.flat).(nextAcked := false, pendingAck := Some(id)),
       Ok(Some(SendPadOffer(id, supply.base))))
  }

  function Adopted(p: PumpState, id: nat, base: u64, flat: Bundle): PumpState {
    p.(c2s := p.c2s.(next := Some(FreshStream(id, base, flat, ClientToServer))),
       s2c := p.s2c.(next := Some(FreshStream(id, base, flat, ServerToClient))),
       nextBundleId := p.nextBundleId + 1)
  }

  /** The server asks its source for a bundle. */
  predicate Prefetches(p: PumpState) {
    !p.closed && p.role == Server && !p.HoldsNext()
  }

  /** Handling `msg` asks the source for a bundle, and a bundle counter is used up if it answers. */
  predicate AsksSource(p: PumpState, msg: PadControl) {
    (msg.PadNeed? && Prefetches(p)) ||
    (msg.PadOffer? && !p.closed && p.role == Client && msg.bundleId == p.nextBundleId && !p.HoldsNext())
  }

  function ServerPrefetch(p: PumpState, answer: Answer): (PumpState, Result<Option<PumpAction>, PadSourceError>)
    requires p.Valid() && (Prefetches(p) ==> p.nextBundleId < U64_MAX)
  {
    if p.closed then (p, Ok(None))
    else if p.role != Server then (p.Closed(), Err(ReserveFailed("coordinator-must-be-server")))
    else if p.HoldsNext() then (p, Ok(None))
    else Prefetch(p, answer)
  }

  /** An answer to a request for a bundle at an announced base is for that base. */
  predicate Answers(answer: Answer, msg: PadControl) {
    msg.PadOffer? && answer.Ok? ==> answer.value.base == msg.baseSegment
  }

  function OnControl(p: PumpState, msg: PadControl, answer: Answer): (PumpState, Result<seq<PumpAction>, PumpError>)
    requires p.Valid() && (AsksSource(p, msg) ==> p.nextBundleId < U64_MAX) && Answers(answer, msg)
  {
    if p.closed then (p, Err(DataError(OtpError.Closed)))
    else
      match msg
      case PadNeed =>
        if p.role != Server then (p.Closed(), Err(DataError(OtpError.Closed)))
        else
          (match ServerPrefetch(p, answer)
           case (p', Ok(None)) => (p', Ok([]))
           case (p', Ok(Some(action))) => (p', Ok([action]))
           case (p', Err(e)) => (p', Err(SourceError(e))))
      case PadOffer(id, base) =>
        if p.role != Client then (p.Closed(), Err(DataError(OtpError.Closed)))
        else if id != p.nextBundleId || p.HoldsNext() then (p.Closed(), Err(DataError(BundleMismatch)))
        else if answer.Err? then (p.Closed(), Err(SourceError(answer.error)))
        else (Adopted(p, id, base, answer.value.flat), Ok([SendPadAck(id)]))
      case PadAck(id) =>
        if p.role != Server then (p.Closed(), Err(DataError(OtpError.Closed)))
        else if p.pendingAck != Some(id) then (p.Closed(), Err(DataError(BundleMismatch)))
        else (p.(nextAcked := true, pendingAck := None), Ok([]))
      case Close => (p.Closed(), Ok([]))
  }
}
