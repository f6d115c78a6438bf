/**
 * An honest client pump and server pump over one shared book, joined by one ordered channel each way that
 * carries both data frames and control messages. The invariant says what would happen if everything in
 * flight were delivered: the receiver would end exactly where the sender is.
 */
module PumpPair {
  import opened Bytes
  import opened Types
  import opened Wire
  import opened Pad
  import opened Record
  import opened PumpSpec

  datatype Msg = Data(frame: seq<byte>) | Control(control: PadControl)

  /** The shared book as the bundle found at each base, the base of bundle 0, and the book's end. */
  datatype Env = Env(mac: Mac, flat: nat -> Bundle, base0: nat, limit: nat) {
    predicate Valid() {
      base0 + 128 <= limit <= U64_MAX
    }

    function Base(k: nat): nat {
      base0 + 128 * k
    }

    predicate Has(k: nat) {
      Base(k) + 128 <= limit
    }

    function Material(k: nat, d: Direction): Half {
      HalfOf(flat(Base(k)), d)
    }
  }

  datatype Pair = Pair(
    client: PumpState, server: PumpState, clientPointer: nat, serverPointer: nat,
    toServer: seq<Msg>, toClient: seq<Msg>,
    sentC2s: seq<byte>, gotC2s: seq<byte>, sentS2c: seq<byte>, gotS2c: seq<byte>)

  datatype Action =
    | ClientSends(plaintext: seq<byte>)
    | ServerSends(plaintext: seq<byte>)
    | ClientAsks
    | ServerPrefetches
    | ClientReceives
    | ServerReceives

  // ---- the honest driver ----

  /** The answer of a source whose pointer stands at `pointer`. */
  function SourceAnswer(env: Env, pointer: nat): Answer
    requires env.Valid()
  {
    if pointer + 128 <= env.limit then Ok(Supply(pointer, env.flat(pointer))) else Err(ReserveFailed("exhausted"))
  }

  function AnswerAt(env: Env, pointer: nat, base: nat): Answer
    requires env.Valid()
  {
    if pointer != base then Err(PointerMismatch(pointer, base)) else SourceAnswer(env, pointer)
  }

  function Advanced(pointer: nat, answer: Answer): nat {
    if answer.Ok? then pointer + 128 else pointer
  }

  function Announced(actions: seq<PumpAction>): seq<Msg> {
    if |actions| == 0 then []
    else
      (match actions[0]
       case SendPadOffer(id, base) => [Control(PadOffer(id, base))]
       case SendPadAck(id) => [Control(PadAck(id))]) + Announced(actions[1..])
  }

  function ClientSend(env: Env, s: Pair, plaintext: seq<byte>): (Pair, bool)
    requires s.client.Valid()
  {
    match Send(env.mac, s.client, plaintext)
    case (p, Ok(Sent(record, n, _))) =>
      (s.(client := p, toServer := s.toServer + [Data(Encode(record))],
          sentC2s := s.sentC2s + plaintext[..Min(n, |plaintext|)]), true)
    case (p, Ok(Backpressure)) => (s.(client := p), true)
    case (p, Err(_)) => (s.(client := p), false)
  }

  function ServerSend(env: Env, s: Pair, plaintext: seq<byte>): (Pair, bool)
    requires s.server.Valid()
  {
    match Send(env.mac, s.server, plaintext)
    case (p, Ok(Sent(record, n, _))) =>
      (s.(server := p, toClient := s.toClient + [Data(Encode(record))],
          sentS2c := s.sentS2c + plaintext[..Min(n, |plaintext|)]), true)
    case (p, Ok(Backpressure)) => (s.(server := p), true)
    case (p, Err(_)) => (s.(server := p), false)
  }

  function DoPrefetch(env: Env, s: Pair): (Pair, bool)
    requires env.Valid() && s.server.Valid() && s.server.nextBundleId < U64_MAX
  {
    var answer := SourceAnswer(env, s.serverPointer);
    match ServerPrefetch(s.server, answer)
    case (p, Ok(Some(action))) =>
      (s.(server := p, serverPointer := Advanced(s.serverPointer, answer),
          toClient := s.toClient + Announced([action])), true)
    case (p, Ok(None)) => (s.(server := p), true)
    case (p, Err(_)) => (s.(server := p), false)
  }

  function ClientReceive(env: Env, s: Pair): (Pair, bool)
    requires env.Valid() && s.client.Valid() && s.client.nextBundleId < U64_MAX && |s.toClient| > 0
  {
    var rest := s.(toClient := s.toClient[1..]);
    match s.toClient[0]
    case Data(frame) =>
      (match Receive(env.mac, s.client, frame)
       case (p, Ok(got)) => (rest.(client := p, gotS2c := s.gotS2c + got.plaintext), true)
       case (p, Err(_)) => (rest.(client := p), false))
    case Control(msg) =>
      var answer: Answer := if msg.PadOffer? then AnswerAt(env, s.clientPointer, msg.baseSegment)
                            else Err(ReserveFailed("none"));
      (match OnControl(s.client, msg, answer)
       case (p, Ok(actions)) =>
         (rest.(client := p, clientPointer := Advanced(s.clientPointer, answer),
                toServer := s.toServer + Announced(actions)), true)
       case (p, Err(_)) => (rest.(client := p), false))
  }

  function ServerReceive(env: Env, s: Pair): (Pair, bool)
    requires env.Valid() && s.server.Valid() && s.server.nextBundleId < U64_MAX && |s.toServer| > 0
  {
    var rest := s.(toServer := s.toServer[1..]);
    match s.toServer[0]
    case Data(frame) =>
      (match Receive(env.mac, s.server, frame)
       case (p, Ok(got)) => (rest.(server := p, gotC2s := s.gotC2s + got.plaintext), true)
       case (p, Err(_)) => (rest.(server := p), false))
    case Control(PadNeed) => DoPrefetch(env, rest)
    case Control(msg) =>
      (match OnControl(s.server, msg, Err(ReserveFailed("none")))
       case (p, Ok(actions)) => (rest.(server := p, toClient := s.toClient + Announced(actions)), true)
       case (p, Err(_)) => (rest.(server := p), false))
  }

  /**
   * Plaintext is not empty, there is something to receive, the send counter is not exhausted, and the source
   * succeeds where it is asked: when the server has to prefetch and holds no next bundle.
   */
  predicate Enabled(env: Env, s: Pair, a: Action) {
    match a
    case ClientSends(plaintext) => plaintext != [] && s.client.sendSeq < U64_MAX
    case ServerSends(plaintext) => plaintext != [] && s.server.sendSeq < U64_MAX
    case ClientAsks => true
    case ServerPrefetches => s.server.HoldsNext() || s.serverPointer + 128 <= env.limit
    case ClientReceives => |s.toClient| > 0
    case ServerReceives =>
      |s.toServer| > 0 &&
      (s.toServer[0] == Control(PadNeed) ==> s.server.HoldsNext() || s.serverPointer + 128 <= env.limit)
  }

  predicate CanPerform(env: Env, s: Pair) {
    env.Valid() && s.client.Valid() && s.server.Valid() &&
    s.client.nextBundleId < U64_MAX && s.server.nextBundleId < U64_MAX
  }

  /** The new state, and whether every pump call involved succeeded. */
  function Perform(env: Env, s: Pair, a: Action): (Pair, bool)
    requires CanPerform(env, s) && Enabled(env, s, a)
  {
    match a
    case ClientSends(plaintext) => ClientSend(env, s, plaintext)
    case ServerSends(plaintext) => ServerSend(env, s, plaintext)
    case ClientAsks => (s.(toServer := s.toServer + [Control(PadNeed)]), true)
    case ServerPrefetches => DoPrefetch(env, s)
    case ClientReceives => ClientReceive(env, s)
    case ServerReceives => ServerReceive(env, s)
  }

  // ---- what delivering the messages in flight would do ----

  /**
   * A receiver as far as one channel can tell: the bundle, offset and sequence number it stands at, the
   * newest bundle it holds, the offer it has not seen acknowledged, the plaintext delivered so far and the
   * pad bytes used so far.
   */
  datatype Rx = Rx(bundle: nat, cursor: nat, seqNo: nat, top: nat, pending: Option<u64>, out: seq<byte>, used: nat)

  /** A stream that stands at `(bundle, cursor)` of a direction with the shared material still ahead of it. */
  predicate Stands(env: Env, d: Direction, s: Stream, bundle: nat, cursor: nat) {
    s.Valid() && s.bundleId == bundle && s.cursor == cursor
    && s.baseSegment == env.Base(bundle) + 64 * DirectionIndex(d)
    && s.buf[cursor..] == env.Material(bundle, d)[cursor..]
  }

  function KeyAt(env: Env, d: Direction, bundle: nat, cursor: nat): Bytes32
    requires cursor + MAC_KEY_LEN <= PAD_HALF
  {
    env.Material(bundle, d)[cursor..cursor + MAC_KEY_LEN]
  }

  function PadAt(env: Env, d: Direction, bundle: nat, cursor: nat, l: nat): (pad: seq<byte>)
    requires cursor + MAC_KEY_LEN + l <= PAD_HALF
    ensures |pad| == l
  {
    env.Material(bundle, d)[cursor + MAC_KEY_LEN..cursor + MAC_KEY_LEN + l]
  }

  lemma StandsMaterial(env: Env, d: Direction, s: Stream, bundle: nat, cursor: nat, l: nat)
    requires Stands(env, d, s, bundle, cursor) && s.Fits(l)
    ensures s.MacKey() == KeyAt(env, d, bundle, cursor) && s.PadBytes(l) == PadAt(env, d, bundle, cursor, l)
    ensures Stands(env, d, s.Spent(l), bundle, cursor + MAC_KEY_LEN + l)
  {
    var m := env.Material(bundle, d);
    assert forall i | cursor <= i < PAD_HALF :: s.buf[i] == s.buf[cursor..][i - cursor] == m[cursor..][i - cursor] == m[i];
    var end := cursor + MAC_KEY_LEN + l;
    assert s.Spent(l).buf[end..] == s.buf[end..];
  }

  function DeliverData(env: Env, d: Direction, r: Rx, frame: seq<byte>): Option<Rx> {
    match Decode(frame)
    case Err(_) => None
    case Ok(rec) =>
      var moves := rec.bundleId == r.bundle + 1;
      var cursor := if moves then 0 else r.cursor;
      var l := |rec.ciphertext|;
      if && rec.direction == d && rec.recordSeq == r.seqNo < U64_MAX
         && (rec.bundleId == r.bundle || (moves && rec.bundleId <= r.top && r.pending == None))
         && rec.baseSegment == env.Base(rec.bundleId) + 64 * DirectionIndex(d)
         && rec.padOffset == cursor && cursor + MAC_KEY_LEN + l <= PAD_HALF
         && rec.tag == env.mac(KeyAt(env, d, rec.bundleId, cursor), MacInput(Header(rec), rec.ciphertext))
      then
        Some(Rx(rec.bundleId, cursor + MAC_KEY_LEN + l, r.seqNo + 1, r.top, r.pending,
                r.out + XorSeq(rec.ciphertext, PadAt(env, d, rec.bundleId, cursor, l)), r.used + MAC_KEY_LEN + l))
      else None
  }

  function Deliver(env: Env, d: Direction, r: Rx, m: Msg): Option<Rx> {
    match m
    case Data(frame) => DeliverData(env, d, r, frame)
    case Control(PadOffer(id, base)) =>
      if d == ServerToClient && id == r.top + 1 && r.bundle == r.top && base == env.Base(id)
      then Some(r.(top := id)) else None
    case Control(PadAck(id)) =>
      if d == ClientToServer && r.pending == Some(id) then Some(r.(pending := None)) else None
    case Control(PadNeed) => if d == ClientToServer then Some(r) else None
    case Control(Close) => None
  }

  function Replay(env: Env, d: Direction, r: Rx, q: seq<Msg>): Option<Rx>
    decreases |q|
  {
    if |q| == 0 then Some(r)
    else
      match Deliver(env, d, r, q[0])
      case None => None
      case Some(r') => Replay(env, d, r', q[1..])
  }

  lemma {:induction false} ReplayAppend(env: Env, d: Direction, r: Rx, q: seq<Msg>, m: Msg)
    requires Replay(env, d, r, q).Some?
    ensures Replay(env, d, r, q + [m]) == Deliver(env, d, Replay(env, d, r, q).value, m)
    decreases |q|
  {
    hide Deliver;
    if |q| == 0 {
      assert (q + [m])[1..] == [];
    } else {
      assert (q + [m])[1..] == q[1..] + [m];
      ReplayAppend(env, d, Deliver(env, d, r, q[0]).value, q[1..], m);
    }
  }

  predicate Forward(d: Direction, r: Rx, e: Rx) {
    && r.bundle <= e.bundle && r.top <= e.top
    && (r.pending == None ==> e.pending == None) && (e.pending != None ==> e.pending == r.pending)
    && (d == ClientToServer ==> e.top == r.top)
    && (d == ServerToClient ==> e.pending == r.pending)
  }

  lemma DeliverForward(env: Env, d: Direction, r: Rx, m: Msg)
    requires Deliver(env, d, r, m).Some?
    ensures Forward(d, r, Deliver(env, d, r, m).value)
  {
    hide Decode, Header, MacInput;
  }

  /** Delivery only moves forward, and a settled acknowledgement stays settled. */
  lemma {:induction false} ReplayForward(env: Env, d: Direction, r: Rx, q: seq<Msg>)
    requires Replay(env, d, r, q).Some?
    ensures Forward(d, r, Replay(env, d, r, q).value)
    decreases |q|
  {
    hide Deliver;
    if |q| > 0 {
      DeliverForward(env, d, r, q[0]);
      ReplayForward(env, d, Deliver(env, d, r, q[0]).value, q[1..]);
    }
  }

  lemma DeliverUnderNewOffer(env: Env, r: Rx, m: Msg, id: u64)
    requires Deliver(env, ClientToServer, r, m).Some? && r.pending == None
    requires Deliver(env, ClientToServer, r, m).value.bundle == r.bundle
    ensures Deliver(env, ClientToServer, r.(top := id, pending := Some(id)), m) ==
            Some(Deliver(env, ClientToServer, r, m).value.(top := id, pending := Some(id)))
  {
    hide Decode, Header, MacInput, XorSeq;
  }

  /** If no message in flight moves to another bundle, a newer offer at the receiver does not disturb them. */
  lemma {:induction false} ReplayUnderNewOffer(env: Env, r: Rx, q: seq<Msg>, id: u64)
    requires Replay(env, ClientToServer, r, q).Some? && r.pending == None
    requires Replay(env, ClientToServer, r, q).value.bundle == r.bundle
    ensures Replay(env, ClientToServer, r.(top := id, pending := Some(id)), q) ==
            Some(Replay(env, ClientToServer, r, q).value.(top := id, pending := Some(id)))
    decreases |q|
  {
    hide Deliver;
    if |q| > 0 {
      var r' := Deliver(env, ClientToServer, r, q[0]).value;
      DeliverForward(env, ClientToServer, r, q[0]);
      ReplayForward(env, ClientToServer, r', q[1..]);
      DeliverUnderNewOffer(env, r, q[0], id);
      ReplayUnderNewOffer(env, r', q[1..], id);
    }
  }

  // ---- the invariant ----

  predicate PlaneOk(env: Env, d: Direction, p: Plane, top: nat) {
    && Stands(env, d, p.current, p.current.bundleId, p.current.cursor)
    && p.current.bundleId <= top
    && (p.next.None? <==> p.current.bundleId == top)
    && (p.next.Some? ==> p.current.bundleId + 1 == top && p.next.value == FreshStream(top, env.Base(top), env.flat(env.Base(top)), d))
  }

  predicate PartyOk(env: Env, p: PumpState, role: Role, pointer: nat) {
    && p.role == role && !p.closed && 1 <= p.nextBundleId
    && env.Has(p.nextBundleId - 1) && pointer == env.Base(p.nextBundleId)
    && PlaneOk(env, ClientToServer, p.c2s, p.nextBundleId - 1)
    && PlaneOk(env, ServerToClient, p.s2c, p.nextBundleId - 1)
  }

  /** A pump as the receiver of one direction. */
  function View(p: PumpState, d: Direction, got: seq<byte>): Rx
    requires p.nextBundleId >= 1
  {
    Rx(p.PlaneOf(d).current.bundleId, p.PlaneOf(d).current.cursor, p.recvSeq, p.nextBundleId - 1, p.pendingAck, got,
       p.ConsumedOf(d))
  }

  /** The receiver, once everything in flight is delivered, stands where the sender stands. */
  predicate Meets(e: Rx, p: PumpState, d: Direction, sent: seq<byte>) {
    && e.bundle == p.PlaneOf(d).current.bundleId && e.cursor == p.PlaneOf(d).current.cursor
    && e.seqNo == p.sendSeq && e.out == sent && e.used == p.ConsumedOf(d)
  }

  predicate UpOk(env: Env, s: Pair)
    requires s.client.nextBundleId >= 1 && s.server.nextBundleId >= 1
  {
    var e := Replay(env, ClientToServer, View(s.server, ClientToServer, s.gotC2s), s.toServer);
    && e.Some? && Meets(e.value, s.client, ClientToServer, s.sentC2s)
    && e.value.pending == if s.client.nextBundleId < s.server.nextBundleId then Some(s.server.nextBundleId - 1) else None
  }

  predicate DownOk(env: Env, s: Pair)
    requires s.client.nextBundleId >= 1 && s.server.nextBundleId >= 1
  {
    var e := Replay(env, ServerToClient, View(s.client, ServerToClient, s.gotS2c), s.toClient);
    && e.Some? && Meets(e.value, s.server, ServerToClient, s.sentS2c)
    && e.value.top == s.server.nextBundleId - 1
  }

  /** How the server's acknowledgement state relates the two ends. */
  predicate OfferOk(s: Pair) {
    && s.client.pendingAck == None
    && s.client.nextBundleId <= s.server.nextBundleId <= s.client.nextBundleId + 1
    && (s.server.pendingAck.Some? ==>
          && s.server.pendingAck.value == s.server.nextBundleId - 1
          && s.server.c2s.next.Some? && s.server.s2c.next.Some? && !s.server.nextAcked)
    && (s.server.pendingAck.None? ==> s.client.nextBundleId == s.server.nextBundleId)
  }

  predicate Inv(env: Env, s: Pair) {
    && env.Valid()
    && PartyOk(env, s.client, Client, s.clientPointer) && PartyOk(env, s.server, Server, s.serverPointer)
    && OfferOk(s) && UpOk(env, s) && DownOk(env, s)
  }

  function Start(env: Env): Pair
    requires env.Valid()
  {
    var flat := env.flat(env.base0);
    Pair(New(Client, env.base0, flat), New(Server, env.base0, flat), env.Base(1), env.Base(1),
         [], [], [], [], [], [])
  }

  lemma StartInv(env: Env)
    requires env.Valid()
    ensures Inv(env, Start(env))
  {
  }

  lemma InvCanPerform(env: Env, s: Pair)
    requires Inv(env, s)
    ensures CanPerform(env, s)
  {
  }

  // ---- what one send and one receive do, seen from the channel ----

  /** A sender that stands at `(bundle, cursor)` emits a frame that a receiver standing there accepts. */
  lemma SentIsDelivered(env: Env, d: Direction, e: Rx, s: Stream, seqNo: u64, plaintext: seq<byte>)
    requires Stands(env, d, s, s.bundleId, s.cursor) && |plaintext| > 0 && s.Fits(|plaintext|)
    requires e.seqNo == seqNo < U64_MAX
    requires (e.bundle == s.bundleId && e.cursor == s.cursor) ||
             (e.bundle + 1 == s.bundleId <= e.top && s.cursor == 0 && e.pending == None)
    ensures var frame := Encode(SealedRecord(env.mac, s, d, seqNo, plaintext));
            var l := |plaintext|;
            DeliverData(env, d, e, frame) ==
            Some(Rx(s.bundleId, s.cursor + MAC_KEY_LEN + l, seqNo + 1, e.top, e.pending, e.out + plaintext,
                    e.used + MAC_KEY_LEN + l))
  {
    hide Encode, Decode;
    var l := |plaintext|;
    SealedDecodes(env.mac, s, d, seqNo, plaintext);
    StandsMaterial(env, d, s, s.bundleId, s.cursor, l);
    XorSeqUndo(plaintext, s.PadBytes(l));
  }

  /** A frame the channel view accepts is opened by the stream that stands there, with the same plaintext. */
  lemma DeliveredIsOpened(env: Env, d: Direction, r: Rx, s: Stream, frame: seq<byte>)
    requires DeliverData(env, d, r, frame).Some? && Decode(frame).Ok?
    requires var b := Decode(frame).value.bundleId; Stands(env, d, s, b, if b == r.bundle then r.cursor else 0)
    ensures var want := OpenExpectation(d, s.bundleId, s.baseSegment, r.seqNo);
            var rec := Decode(frame).value;
            var r' := DeliverData(env, d, r, frame).value;
            var (s', opened') := Open(env.mac, s, want, frame);
            && opened'.Ok? && r'.out == r.out + opened'.value && r'.used == r.used + MAC_KEY_LEN + |opened'.value|
            && Stands(env, d, s', r'.bundle, r'.cursor)
  {
    hide Decode, Header, MacInput;
    var rec := Decode(frame).value;
    var l := |rec.ciphertext|;
    StandsMaterial(env, d, s, rec.bundleId, s.cursor, l);
    assert Precheck(s, OpenExpectation(d, s.bundleId, s.baseSegment, r.seqNo), rec) == None;
  }

  /** Everything but the stream of direction `d`, its counters and the switch flag. */
  predicate SameElsewhere(p: PumpState, p': PumpState, d: Direction) {
    && p'.role == p.role && p'.closed == p.closed && p'.nextBundleId == p.nextBundleId
    && p'.pendingAck == p.pendingAck && (p'.nextAcked ==> p.nextAcked)
    && p'.PlaneOf(d.Opposite()) == p.PlaneOf(d.Opposite()) && p'.ConsumedOf(d.Opposite()) == p.ConsumedOf(d.Opposite())
    && (p'.PlaneOf(d).current.bundleId == p.PlaneOf(d).current.bundleId ==> p'.PlaneOf(d).next == p.PlaneOf(d).next)
  }

  lemma SwitchKeepsParty(env: Env, p: PumpState, role: Role, pointer: nat, d: Direction)
    requires env.Valid() && PartyOk(env, p, role, pointer) && p.PlaneOf(d).next.Some?
    ensures var p' := p.Switched(d);
            && PartyOk(env, p', role, pointer) && SameElsewhere(p, p', d)
            && p'.PlaneOf(d).current.bundleId == p.PlaneOf(d).current.bundleId + 1
            && p'.PlaneOf(d).current.cursor == 0 && p'.PlaneOf(d).next == None
            && p'.sendSeq == p.sendSeq && p'.recvSeq == p.recvSeq && p'.ConsumedOf(d) == p.ConsumedOf(d)
  {
    hide Burned, HalfOf, Zeros, Stands, FreshStream;
    NextIsReady(env, d, p.PlaneOf(d), p.nextBundleId - 1);
  }

  /** The next stream can take the current one's place: it is fresh, and the newest. */
  lemma NextIsReady(env: Env, d: Direction, plane: Plane, top: nat)
    requires env.Valid() && env.Has(top) && PlaneOk(env, d, plane, top) && plane.next.Some?
    ensures plane.next.value.cursor == 0 && plane.next.value.bundleId == top == plane.current.bundleId + 1
    ensures PlaneOk(env, d, Plane(plane.next.value, None), top)
  {
  }

  /** The stream of a direction is used for one record. */
  lemma SpendKeepsParty(env: Env, p: PumpState, role: Role, pointer: nat, d: Direction, s': Stream, used: nat,
                        sent: u64, received: u64)
    requires env.Valid() && PartyOk(env, p, role, pointer)
    requires Stands(env, d, s', p.PlaneOf(d).current.bundleId, s'.cursor)
    ensures var p' := p.SetPlane(d, p.PlaneOf(d).(current := s')).AddConsumed(d, used).(sendSeq := sent, recvSeq := received);
            PartyOk(env, p', role, pointer) && SameElsewhere(p, p', d)
  {
    hide HalfOf;
  }

  /** What a send that fits does, put together. */
  lemma SendHereIs(mac: Mac, p: PumpState, plaintext: seq<byte>)
    requires p.Valid() && p.PlaneOf(p.SendDir()).current.MaxRecordLen() > 0 && plaintext != [] && p.sendSeq < U64_MAX
    ensures var d := p.SendDir();
            var s := p.PlaneOf(d).current;
            var l := Min(|plaintext|, s.MaxRecordLen());
            SendHere(mac, p, plaintext) ==
            (p.SetPlane(d, p.PlaneOf(d).(current := s.Spent(l))).AddConsumed(d, MAC_KEY_LEN + l)
               .(sendSeq := p.sendSeq + 1, recvSeq := p.recvSeq),
             Ok(Sent(SealedRecord(mac, s, d, p.sendSeq, plaintext[..l]), l, s.Spent(l).BelowLowWater())))
  {
    hide SealedRecord, Burned;
  }

  /** Each current stream of an honest pump stands in its bundle. */
  lemma PartyStands(env: Env, p: PumpState, role: Role, pointer: nat, d: Direction)
    requires env.Valid() && PartyOk(env, p, role, pointer)
    ensures p.Valid() && Stands(env, d, p.PlaneOf(d).current, p.PlaneOf(d).current.bundleId, p.PlaneOf(d).current.cursor)
  {
  }

  lemma SendHereFromParty(env: Env, p: PumpState, role: Role, pointer: nat, plaintext: seq<byte>, e: Rx, sent: seq<byte>)
    requires env.Valid() && PartyOk(env, p, role, pointer) && plaintext != [] && p.sendSeq < U64_MAX
    requires p.PlaneOf(role.SendDirection()).current.MaxRecordLen() > 0
    requires e.seqNo == p.sendSeq && e.out == sent && e.used == p.ConsumedOf(role.SendDirection())
    requires var s := p.PlaneOf(role.SendDirection()).current;
             (e.bundle == s.bundleId && e.cursor == s.cursor) ||
             (e.bundle + 1 == s.bundleId <= e.top && s.cursor == 0 && e.pending == None)
    ensures var d := role.SendDirection();
            var (p', r) := SendHere(env.mac, p, plaintext);
            && r.Ok? && r.value.Sent? && 0 < r.value.consumedPlaintext <= |plaintext|
            && PartyOk(env, p', role, pointer) && SameElsewhere(p, p', d) && p'.recvSeq == p.recvSeq
            && p'.PlaneOf(d).current.bundleId == p.PlaneOf(d).current.bundleId
            && var e' := DeliverData(env, d, e, Encode(r.value.record));
               && e'.Some? && Meets(e'.value, p', d, sent + plaintext[..r.value.consumedPlaintext])
               && e'.value.top == e.top && e'.value.pending == e.pending
  {
    hide DeliverData, SealedRecord, Encode, Burned, PlaneOk, Stands, SendHere, SameElsewhere;
    var d := role.SendDirection();
    var s := p.PlaneOf(d).current;
    PartyStands(env, p, role, pointer, d);
    var l := Min(|plaintext|, s.MaxRecordLen());
    SendHereIs(env.mac, p, plaintext);
    SentIsDelivered(env, d, e, s, p.sendSeq, plaintext[..l]);
    StandsMaterial(env, d, s, s.bundleId, s.cursor, l);
    SpendKeepsParty(env, p, role, pointer, d, s.Spent(l), MAC_KEY_LEN + l, p.sendSeq + 1, p.recvSeq);
  }

  /** Sending either presses back and changes nothing, or puts a frame on the channel that keeps the ends level. */
  lemma SendFromParty(env: Env, p: PumpState, role: Role, pointer: nat, plaintext: seq<byte>, e: Rx, sent: seq<byte>)
    requires env.Valid() && PartyOk(env, p, role, pointer) && plaintext != [] && p.sendSeq < U64_MAX
    requires Meets(e, p, role.SendDirection(), sent)
    requires p.NextReadyForSend(role.SendDirection()) ==> e.pending == None && p.nextBundleId - 1 <= e.top
    ensures var d := role.SendDirection();
            var (p', r) := Send(env.mac, p, plaintext);
            && r.Ok? && (r.value.Backpressure? ==> p' == p)
            && (r.value.Sent? ==>
                  && r.value.consumedPlaintext <= |plaintext|
                  && PartyOk(env, p', role, pointer) && SameElsewhere(p, p', d) && p'.recvSeq == p.recvSeq
                  && (p'.PlaneOf(d).current.bundleId == p.PlaneOf(d).current.bundleId || p.NextReadyForSend(d))
                  && var e' := DeliverData(env, d, e, Encode(r.value.record));
                     && e'.Some? && Meets(e'.value, p', d, sent + plaintext[..r.value.consumedPlaintext])
                     && e'.value.top == e.top && e'.value.pending == e.pending)
  {
    hide DeliverData, SendHere, Encode, Burned;
    var d := role.SendDirection();
    if p.PlaneOf(d).current.MaxRecordLen() != 0 {
      SendHereFromParty(env, p, role, pointer, plaintext, e, sent);
    } else if p.NextReadyForSend(d) {
      SwitchKeepsParty(env, p, role, pointer, d);
      SendHereFromParty(env, p.Switched(d), role, pointer, plaintext, e, sent);
    }
  }

  lemma ReceiveHereAtParty(env: Env, p: PumpState, role: Role, pointer: nat, frame: seq<byte>, r: Rx)
    requires env.Valid() && PartyOk(env, p, role, pointer)
    requires DeliverData(env, role.SendDirection().Opposite(), r, frame).Some? && Decode(frame).Ok?
    requires r.seqNo == p.recvSeq && r.used == p.ConsumedOf(role.SendDirection().Opposite())
    requires var s := p.PlaneOf(role.SendDirection().Opposite()).current;
             var b := Decode(frame).value.bundleId;
             s.bundleId == b && s.cursor == if b == r.bundle then r.cursor else 0
    ensures var d := role.SendDirection().Opposite();
            var r' := DeliverData(env, d, r, frame).value;
            var (p', got) := ReceiveHere(env.mac, p, frame);
            && got.Ok? && PartyOk(env, p', role, pointer) && SameElsewhere(p, p', d) && p'.sendSeq == p.sendSeq
            && p'.PlaneOf(d).current.bundleId == r'.bundle == p.PlaneOf(d).current.bundleId && p'.PlaneOf(d).current.cursor == r'.cursor
            && p'.recvSeq == r'.seqNo && r'.out == r.out + got.value.plaintext && p'.ConsumedOf(d) == r'.used
            && r'.top == r.top && r'.pending == r.pending
  {
    hide Decode, Open, Burned, PlaneOk, DeliverData, SameElsewhere, ReceiveHere;
    var d := role.SendDirection().Opposite();
    var s := p.PlaneOf(d).current;
    PartyStands(env, p, role, pointer, d);
    DeliveredMovesOn(env, d, r, frame);
    DeliveredIsOpened(env, d, r, s, frame);
    ReceiveHereIs(env.mac, p, frame);
    var (s', opened') := Open(env.mac, s, OpenExpectation(d, s.bundleId, s.baseSegment, p.recvSeq), frame);
    SpendKeepsParty(env, p, role, pointer, d, s', MAC_KEY_LEN + |opened'.value|, p.sendSeq, p.recvSeq + 1);
  }

  /** What the channel's view of a delivery changes besides the stream. */
  lemma DeliveredMovesOn(env: Env, d: Direction, r: Rx, frame: seq<byte>)
    requires DeliverData(env, d, r, frame).Some? && Decode(frame).Ok?
    ensures var r' := DeliverData(env, d, r, frame).value;
            && r.seqNo < U64_MAX && r'.seqNo == r.seqNo + 1 && r'.top == r.top && r'.pending == r.pending
            && r'.bundle == Decode(frame).value.bundleId
  {
    hide Decode, XorSeq, MacInput, Header;
  }

  /** What a receive that opens does, put together. */
  lemma ReceiveHereIs(mac: Mac, p: PumpState, frame: seq<byte>)
    requires p.Valid() && p.recvSeq < U64_MAX
    ensures var d := p.RecvDir();
            var s := p.PlaneOf(d).current;
            var (s', opened') := Open(mac, s, OpenExpectation(d, s.bundleId, s.baseSegment, p.recvSeq), frame);
            opened'.Ok? ==>
              ReceiveHere(mac, p, frame) ==
              (p.SetPlane(d, p.PlaneOf(d).(current := s')).AddConsumed(d, MAC_KEY_LEN + |opened'.value|)
                 .(sendSeq := p.sendSeq, recvSeq := p.recvSeq + 1),
               Ok(Received(opened'.value, s'.BelowLowWater())))
  {
    hide Open, Burned;
  }

  /** A receiver accepts what the channel view accepts, and becomes what that view says. */
  lemma ReceiveAtParty(env: Env, p: PumpState, role: Role, pointer: nat, frame: seq<byte>, got: seq<byte>)
    requires env.Valid() && PartyOk(env, p, role, pointer)
    requires DeliverData(env, role.SendDirection().Opposite(), View(p, role.SendDirection().Opposite(), got), frame).Some?
    ensures var d := role.SendDirection().Opposite();
            var r := View(p, d, got);
            var r' := DeliverData(env, d, r, frame).value;
            var (p', received) := Receive(env.mac, p, frame);
            && received.Ok? && PartyOk(env, p', role, pointer) && SameElsewhere(p, p', d) && p'.sendSeq == p.sendSeq
            && View(p', d, got + received.value.plaintext) == r'
            && (p.pendingAck.Some? ==> r'.bundle == r.bundle)
  {
    hide ReceiveHere, XorSeq, MacInput, Header, Burned;
    var d := role.SendDirection().Opposite();
    var r := View(p, d, got);
    assert Decode(frame).Ok?;
    var b := Decode(frame).value.bundleId;
    if b == r.bundle + 1 {
      SwitchKeepsParty(env, p, role, pointer, d);
      ReceiveHereAtParty(env, p.Switched(d), role, pointer, frame, r);
    } else {
      ReceiveHereAtParty(env, p, role, pointer, frame, r);
    }
  }

  // ---- each action keeps the invariant and succeeds ----

  lemma ReplayAppendData(env: Env, d: Direction, r: Rx, q: seq<Msg>, frame: seq<byte>)
    requires Replay(env, d, r, q).Some?
    ensures Replay(env, d, r, q + [Data(frame)]) == DeliverData(env, d, Replay(env, d, r, q).value, frame)
  {
    hide Replay;
    ReplayAppend(env, d, r, q, Data(frame));
  }

  /** The client can only move its sending direction on when no offer is outstanding. */
  lemma ClientMovesWhenSettled(env: Env, s: Pair)
    requires Inv(env, s) && s.client.c2s.next.Some?
    ensures s.client.nextBundleId == s.server.nextBundleId
  {
    hide Replay;
    ReplayForward(env, ClientToServer, View(s.server, ClientToServer, s.gotC2s), s.toServer);
  }

  lemma ClientSendKeepsInv(env: Env, s: Pair, plaintext: seq<byte>)
    requires Inv(env, s) && Enabled(env, s, ClientSends(plaintext))
    ensures ClientSend(env, s, plaintext).1 && Inv(env, ClientSend(env, s, plaintext).0)
  {
    hide Send, Replay, DeliverData, Encode, PlaneOk;
    InvCanPerform(env, s);
    var r := View(s.server, ClientToServer, s.gotC2s);
    var e := Replay(env, ClientToServer, r, s.toServer).value;
    ReplayForward(env, ClientToServer, r, s.toServer);
    if s.client.c2s.next.Some? {
      ClientMovesWhenSettled(env, s);
    }
    SendFromParty(env, s.client, Client, s.clientPointer, plaintext, e, s.sentC2s);
    var (p, sent) := Send(env.mac, s.client, plaintext);
    if sent.value.Sent? {
      ReplayAppendData(env, ClientToServer, r, s.toServer, Encode(sent.value.record));
      assert View(p, ServerToClient, s.gotS2c) == View(s.client, ServerToClient, s.gotS2c);
    }
  }

  lemma ServerSendKeepsInv(env: Env, s: Pair, plaintext: seq<byte>)
    requires Inv(env, s) && Enabled(env, s, ServerSends(plaintext))
    ensures ServerSend(env, s, plaintext).1 && Inv(env, ServerSend(env, s, plaintext).0)
  {
    hide Send, Replay, DeliverData, Encode, PlaneOk;
    InvCanPerform(env, s);
    var r := View(s.client, ServerToClient, s.gotS2c);
    var e := Replay(env, ServerToClient, r, s.toClient).value;
    ReplayForward(env, ServerToClient, r, s.toClient);
    SendFromParty(env, s.server, Server, s.serverPointer, plaintext, e, s.sentS2c);
    var (p, sent) := Send(env.mac, s.server, plaintext);
    if sent.value.Sent? {
      ReplayAppendData(env, ServerToClient, r, s.toClient, Encode(sent.value.record));
      assert View(p, ClientToServer, s.gotC2s) == View(s.server, ClientToServer, s.gotC2s);
    }
  }

  lemma ClientAskKeepsInv(env: Env, s: Pair)
    requires Inv(env, s)
    ensures Inv(env, s.(toServer := s.toServer + [Control(PadNeed)]))
  {
    hide Replay, PlaneOk;
    ReplayAppend(env, ClientToServer, View(s.server, ClientToServer, s.gotC2s), s.toServer, Control(PadNeed));
  }

  lemma AdoptKeepsParty(env: Env, p: PumpState, role: Role, pointer: nat)
    requires env.Valid() && PartyOk(env, p, role, pointer) && !p.HoldsNext() && env.Has(p.nextBundleId)
    ensures PartyOk(env, Adopted(p, p.nextBundleId, pointer, env.flat(pointer)), role, pointer + 128)
  {
  }

  lemma PrefetchKeepsInv(env: Env, s: Pair)
    requires Inv(env, s) && (s.server.HoldsNext() || s.serverPointer + 128 <= env.limit)
    ensures CanPerform(env, s) && DoPrefetch(env, s).1 && Inv(env, DoPrefetch(env, s).0)
  {
    hide Replay, PlaneOk;
    InvCanPerform(env, s);
    if !s.server.HoldsNext() {
      var id := s.server.nextBundleId;
      var up := View(s.server, ClientToServer, s.gotC2s);
      var down := View(s.client, ServerToClient, s.gotS2c);
      var offer := Control(PadOffer(id, s.serverPointer));
      AdoptKeepsParty(env, s.server, Server, s.serverPointer);
      ServerIsLevel(env, s);
      ReplayUnderNewOffer(env, up, s.toServer, id);
      ReplayAppend(env, ServerToClient, down, s.toClient, offer);
      assert Announced([SendPadOffer(id, s.serverPointer)]) == [offer];
    }
  }

  /** A prefetch fails exactly when it needs a bundle and less than a full one is left. */
  lemma PrefetchSucceedsIff(env: Env, s: Pair)
    requires Inv(env, s)
    ensures CanPerform(env, s)
    ensures DoPrefetch(env, s).1 <==> s.server.HoldsNext() || s.serverPointer + 128 <= env.limit
  {
    InvCanPerform(env, s);
    if s.server.HoldsNext() || s.serverPointer + 128 <= env.limit {
      PrefetchKeepsInv(env, s);
    }
  }

  /** When the server holds no next bundle, both ends are level and nothing in flight changes bundle. */
  lemma ServerIsLevel(env: Env, s: Pair)
    requires Inv(env, s) && !s.server.HoldsNext()
    ensures s.server.pendingAck == None && s.client.nextBundleId == s.server.nextBundleId
    ensures s.server.c2s.current.bundleId == s.server.s2c.current.bundleId == s.server.nextBundleId - 1
    ensures s.client.c2s.current.bundleId == s.server.c2s.current.bundleId
  {
    hide Replay;
    ReplayForward(env, ClientToServer, View(s.server, ClientToServer, s.gotC2s), s.toServer);
  }

  lemma ClientDataKeepsInv(env: Env, s: Pair)
    requires Inv(env, s) && |s.toClient| > 0 && s.toClient[0].Data?
    ensures CanPerform(env, s) && ClientReceive(env, s).1 && Inv(env, ClientReceive(env, s).0)
  {
    hide Receive, DeliverData, PlaneOk;
    InvCanPerform(env, s);
    var frame := s.toClient[0].frame;
    ReceiveAtParty(env, s.client, Client, s.clientPointer, frame, s.gotS2c);
  }

  lemma ClientControlKeepsInv(env: Env, s: Pair)
    requires Inv(env, s) && |s.toClient| > 0 && s.toClient[0].Control?
    ensures CanPerform(env, s) && ClientReceive(env, s).1 && Inv(env, ClientReceive(env, s).0)
  {
    hide Receive, DeliverData, PlaneOk;
    InvCanPerform(env, s);
    var down := View(s.client, ServerToClient, s.gotS2c);
    assert s.toClient[0].control.PadOffer?;
    var id := s.toClient[0].control.bundleId;
    ReplayForward(env, ServerToClient, Deliver(env, ServerToClient, down, s.toClient[0]).value, s.toClient[1..]);
    OfferFindsRoom(env, s);
    AdoptKeepsParty(env, s.client, Client, s.clientPointer);
    ReplayAppend(env, ClientToServer, View(s.server, ClientToServer, s.gotC2s), s.toServer, Control(PadAck(id)));
    assert Announced([SendPadAck(id)]) == [Control(PadAck(id))];
  }

  /** When an offer reaches the client, the client holds no next bundle and its pointer is at the offered base. */
  lemma OfferFindsRoom(env: Env, s: Pair)
    requires Inv(env, s) && |s.toClient| > 0 && s.toClient[0].Control?
    ensures s.toClient[0].control.PadOffer? && !s.client.HoldsNext()
    ensures s.toClient[0].control == PadOffer(s.client.nextBundleId, s.clientPointer)
    ensures s.server.pendingAck == Some(s.client.nextBundleId) && s.server.nextBundleId == s.client.nextBundleId + 1
    ensures env.Has(s.client.nextBundleId)
  {
    hide DeliverData;
    var down := View(s.client, ServerToClient, s.gotS2c);
    ReplayForward(env, ServerToClient, Deliver(env, ServerToClient, down, s.toClient[0]).value, s.toClient[1..]);
    ReplayForward(env, ClientToServer, View(s.server, ClientToServer, s.gotC2s), s.toServer);
  }

  lemma ServerDataKeepsInv(env: Env, s: Pair)
    requires Inv(env, s) && |s.toServer| > 0 && s.toServer[0].Data?
    ensures CanPerform(env, s) && ServerReceive(env, s).1 && Inv(env, ServerReceive(env, s).0)
  {
    hide Receive, DeliverData, PlaneOk;
    InvCanPerform(env, s);
    var frame := s.toServer[0].frame;
    ReceiveAtParty(env, s.server, Server, s.serverPointer, frame, s.gotC2s);
  }

  lemma ServerControlKeepsInv(env: Env, s: Pair)
    requires Inv(env, s) && s.toServer != [] && s.toServer[0].Control? && Enabled(env, s, ServerReceives)
    ensures CanPerform(env, s) && ServerReceive(env, s).1 && Inv(env, ServerReceive(env, s).0)
  {
    hide DeliverData, PlaneOk;
    InvCanPerform(env, s);
    var rest := s.(toServer := s.toServer[1..]);
    var up := View(s.server, ClientToServer, s.gotC2s);
    ReplayForward(env, ClientToServer, Deliver(env, ClientToServer, up, s.toServer[0]).value, s.toServer[1..]);
    match s.toServer[0].control {
      case PadNeed =>
        assert Inv(env, rest);
        PrefetchKeepsInv(env, rest);
      case PadAck(id) =>
        assert Announced([]) == [];
        assert s.toClient + [] == s.toClient;
      case _ =>
        assert false;
    }
  }

  lemma PerformKeepsInv(env: Env, s: Pair, a: Action)
    requires Inv(env, s) && Enabled(env, s, a)
    ensures CanPerform(env, s) && Perform(env, s, a).1 && Inv(env, Perform(env, s, a).0)
  {
    hide Inv, ClientSend, ServerSend, ClientReceive, ServerReceive, DoPrefetch;
    InvCanPerform(env, s);
    match a {
      case ClientSends(plaintext) => ClientSendKeepsInv(env, s, plaintext);
      case ServerSends(plaintext) => ServerSendKeepsInv(env, s, plaintext);
      case ClientAsks => ClientAskKeepsInv(env, s);
      case ServerPrefetches => PrefetchKeepsInv(env, s);
      case ClientReceives =>
        if s.toClient[0].Data? {
          ClientDataKeepsInv(env, s);
        } else {
          ClientControlKeepsInv(env, s);
        }
      case ServerReceives =>
        if s.toServer[0].Data? {
          ServerDataKeepsInv(env, s);
        } else {
          ServerControlKeepsInv(env, s);
        }
    }
  }

  // ---- whole runs ----

  datatype Outcome = NotEnabled | Failed | Reached(state: Pair)

  function Execute(env: Env, s: Pair, actions: seq<Action>): Outcome
    decreases |actions|
  {
    if |actions| == 0 then Reached(s)
    else if !CanPerform(env, s) || !Enabled(env, s, actions[0]) then NotEnabled
    else if !Perform(env, s, actions[0]).1 then Failed
    else Execute(env, Perform(env, s, actions[0]).0, actions[1..])
  }

  lemma {:induction false} ExecuteKeepsInv(env: Env, s: Pair, actions: seq<Action>)
    requires Inv(env, s)
    ensures Execute(env, s, actions) != Failed
    ensures Execute(env, s, actions).Reached? ==> Inv(env, Execute(env, s, actions).state)
    decreases |actions|
  {
    hide Inv, Perform, Enabled;
    if |actions| > 0 && CanPerform(env, s) && Enabled(env, s, actions[0]) {
      PerformKeepsInv(env, s, actions[0]);
      ExecuteKeepsInv(env, Perform(env, s, actions[0]).0, actions[1..]);
    }
  }

  /**
   * No interleaving of sends, receives, requests, prefetches, offers and acknowledgements between honest
   * pumps ever makes a pump call return an error, and neither pump ever closes.
   */
  lemma HonestRunsNeverFail(env: Env, actions: seq<Action>)
    requires env.Valid()
    ensures var outcome := Execute(env, Start(env), actions);
            outcome != Failed &&
            (outcome.Reached? ==> !outcome.state.client.closed && !outcome.state.server.closed)
  {
    StartInv(env);
    ExecuteKeepsInv(env, Start(env), actions);
  }

  // ---- conservation ----

  /** The plaintext of a frame, read with the shared book; control messages carry none. */
  function PlainOf(env: Env, d: Direction, m: Msg): seq<byte> {
    if m.Data? && Decode(m.frame).Ok? then
      var rec := Decode(m.frame).value;
      var l := |rec.ciphertext|;
      if rec.padOffset + MAC_KEY_LEN + l <= PAD_HALF
      then XorSeq(rec.ciphertext, PadAt(env, d, rec.bundleId, rec.padOffset, l)) else []
    else []
  }

  /** The pad bytes a frame costs: 32 for the key and the length of the ciphertext. */
  function CostOf(m: Msg): nat {
    if m.Data? && Decode(m.frame).Ok? then MAC_KEY_LEN + |Decode(m.frame).value.ciphertext| else 0
  }

  function InFlight(env: Env, d: Direction, q: seq<Msg>): seq<byte>
    decreases |q|
  {
    if |q| == 0 then [] else PlainOf(env, d, q[0]) + InFlight(env, d, q[1..])
  }

  function Cost(q: seq<Msg>): nat
    decreases |q|
  {
    if |q| == 0 then 0 else CostOf(q[0]) + Cost(q[1..])
  }

  lemma DeliverAccounts(env: Env, d: Direction, r: Rx, m: Msg)
    requires Deliver(env, d, r, m).Some?
    ensures var e := Deliver(env, d, r, m).value;
            && e.out == r.out + PlainOf(env, d, m)
            && e.used == r.used + CostOf(m)
            && (e.bundle == r.bundle ==> e.cursor == r.cursor + CostOf(m))
  {
    hide Decode, Header, MacInput, XorSeq;
  }

  lemma {:induction false} ReplayAccounts(env: Env, d: Direction, r: Rx, q: seq<Msg>)
    requires Replay(env, d, r, q).Some?
    ensures var e := Replay(env, d, r, q).value;
            && e.out == r.out + InFlight(env, d, q)
            && e.used == r.used + Cost(q)
            && (e.bundle == r.bundle ==> e.cursor == r.cursor + Cost(q))
    decreases |q|
  {
    hide Deliver, PlainOf, CostOf;
    if |q| > 0 {
      var r' := Deliver(env, d, r, q[0]).value;
      DeliverAccounts(env, d, r, q[0]);
      ReplayAccounts(env, d, r', q[1..]);
      DeliverForward(env, d, r, q[0]);
      ReplayForward(env, d, r', q[1..]);
    }
  }

  /**
   * In every state of every honest run and in each direction: what was delivered, followed by what is in
   * flight, is what was accepted for sending; the two ends' pad accounts differ by exactly the cost of what is
   * in flight, and so do their cursors while they are in the same bundle.
   */
  lemma HonestRunsConserve(env: Env, actions: seq<Action>)
    requires env.Valid() && Execute(env, Start(env), actions).Reached?
    ensures var s := Execute(env, Start(env), actions).state;
            && s.gotC2s + InFlight(env, ClientToServer, s.toServer) == s.sentC2s
            && s.gotS2c + InFlight(env, ServerToClient, s.toClient) == s.sentS2c
            && s.client.consumedC2s == s.server.consumedC2s + Cost(s.toServer)
            && s.server.consumedS2c == s.client.consumedS2c + Cost(s.toClient)
            && (s.client.c2s.current.bundleId == s.server.c2s.current.bundleId ==>
                  s.client.c2s.current.cursor == s.server.c2s.current.cursor + Cost(s.toServer))
            && (s.client.s2c.current.bundleId == s.server.s2c.current.bundleId ==>
                  s.server.s2c.current.cursor == s.client.s2c.current.cursor + Cost(s.toClient))
  {
    hide Replay, Execute;
    StartInv(env);
    ExecuteKeepsInv(env, Start(env), actions);
    var s := Execute(env, Start(env), actions).state;
    ReplayAccounts(env, ClientToServer, View(s.server, ClientToServer, s.gotC2s), s.toServer);
    ReplayAccounts(env, ServerToClient, View(s.client, ServerToClient, s.gotS2c), s.toClient);
  }

  /** Once both channels are drained, everything accepted has been delivered. */
  lemma DrainedRunsDeliverAll(env: Env, actions: seq<Action>)
    requires env.Valid() && Execute(env, Start(env), actions).Reached?
    ensures var s := Execute(env, Start(env), actions).state;
            && (s.toServer == [] ==> s.gotC2s == s.sentC2s) && (s.toClient == [] ==> s.gotS2c == s.sentS2c)
  {
    hide Execute;
    HonestRunsConserve(env, actions);
  }
}
