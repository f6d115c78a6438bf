/**
 * The two handshake machines as functions of their state: pointer arbitration, agreement on a segment, and
 * the two confirms.
 */
module HandshakeSpec {
  import opened Bytes
  import opened Types
  import opened Message
  import opened SessionSpec
  import AllocatorRuns
  import Codec

  type IssueError = AllocatorRuns.IssueError

  /** What the issuer answered, call by call. */
  type Answers = seq<Result<Bytes64, IssueError>>

  /** ASCII "client-confirm". */
  const LABEL_C2S: Bytes14 := [0x63, 0x6C, 0x69, 0x65, 0x6E, 0x74, 0x2D, 0x63, 0x6F, 0x6E, 0x66, 0x69, 0x72, 0x6D]
  /** ASCII "server-confirm". */
  const LABEL_S2C: Bytes14 := [0x73, 0x65, 0x72, 0x76, 0x65, 0x72, 0x2D, 0x63, 0x6F, 0x6E, 0x66, 0x69, 0x72, 0x6D]

  datatype HandshakeError =
    | WrongBook
    | OutOfSegments(next: u64)
    | ClientIsAhead(client: u64, server: u64)
    | Authentication(auth: ErrorCode)
    | Violation(violation: ErrorCode)
    | Issuer(issue: IssueError)
    | Csprng
  {
    function Code(): ErrorCode {
      match this
      case WrongBook => BookMismatchCode
      case OutOfSegments(_) => ExhaustedCode
      case ClientIsAhead(_, _) => ClientAheadCode
      case Authentication(c) => c
      case Violation(c) => c
      case Issuer(e) =>
        (match e
         case Exhausted(_) => ExhaustedCode
         case BookMismatch => BookMismatchCode
         case PersistenceUncertain => PersistenceUnverified
         case InvalidRange => InternalCode
         case _ => IoErrorCode)
      case Csprng => CsprngFailure
    }
  }

  /** The outcome of feeding a machine one message. */
  datatype Step =
    | Send(messages: seq<Message>)
    | Established(outbox: seq<Message>, session: SessionState, segment: u64)
    | AwaitPeer
    | StepFailed(error: HandshakeError)

  datatype Config = Config(bookId: Bytes16, localPointer: u64, segmentCount: u64)

  datatype ClientPhase = ClientIdle | HelloSent | ConfirmSent | ClientEstablished | AheadRecovery | ClientFailed

  datatype ServerPhase = ServerIdle | IssueWait | ConfirmWait | ServerEstablished | AheadPending | ServerFailed

  datatype ClientState = ClientState(
    cfg: Config, phase: ClientPhase, clientNonce: Option<Bytes16>, serverNonce: Option<Bytes16>,
    agreed: Option<u64>, session: Option<SessionState>, wastedGap: Option<(u64, u64)>)
  {
    function Fail(): ClientState {
      this.(phase := ClientFailed, session := None)
    }
  }

  datatype ServerState = ServerState(
    cfg: Config, phase: ServerPhase, clientNonce: Option<Bytes16>, serverNonce: Option<Bytes16>,
    agreed: Option<u64>, session: Option<SessionState>)
  {
    function Fail(): ServerState {
      this.(phase := ServerFailed, session := None)
    }
  }

  function NewClient(cfg: Config): ClientState {
    ClientState(cfg, ClientIdle, None, None, None, None, None)
  }

  function NewServer(cfg: Config): ServerState {
    ServerState(cfg, ServerIdle, None, None, None, None)
  }

  // ---- confirms ----

  function ConfirmType(d: Direction): MessageType {
    if d == ClientToServer then ClientConfirm else ServerConfirm
  }

  function ConfirmWire(d: Direction): u16 {
    (if d == ClientToServer then ConfirmC2sType else ConfirmS2cType).Wire()
  }

  /** The inner copy a confirm in direction `d` carries under a given context. */
  function ConfirmFor(ctx: SessionContext, d: Direction): ConfirmBody {
    ConfirmBody(ctx.bookId, ctx.segment, ctx.clientNonce, ctx.serverNonce, d, 0, 0, ConfirmWire(d),
                if d == ClientToServer then LABEL_C2S else LABEL_S2C)
  }

  function SessionSealError(e: SessionError): HandshakeError {
    if e == SequenceOverflow then Violation(SeqUnexpected) else Violation(InternalCode)
  }

  function SessionOpenError(e: SessionError): HandshakeError {
    match e
    case AuthenticationFailed => Authentication(TagInvalidCode)
    case SequenceReplay => Authentication(SeqReplay)
    case SequenceUnexpected => Violation(SeqUnexpected)
    case SequenceOverflow => Violation(SeqUnexpected)
    case WrongDirection => Violation(WrongDirectionCode)
    case Closed => Violation(BadOrder)
  }

  function SealConfirm(aead: Aead, s: SessionState, d: Direction): (SessionState, Result<Message, HandshakeError>)
    requires s.Valid()
  {
    var plain := Codec.EncodeConfirmBody(ConfirmFor(s.ctx, d));
    match Seal(aead, s, ConfirmType(d), plain)
    case (s', Err(e)) => (s', Err(SessionSealError(e)))
    case (s', Ok(record)) =>
      var zeta := s.ctx.SessionNonce();
      (s', Ok(if d == ClientToServer then ConfirmC2s(s.ctx.segment, zeta, 0, record.sequence, record.sealed)
              else ConfirmS2c(s.ctx.segment, zeta, 0, record.sequence, record.sealed)))
  }

  /** The outer fields, checked before any decryption. */
  function VerifyConfirmOuter(segment: u64, nonce: Bytes16, epoch: u32, n: u64, ctx: SessionContext): Option<HandshakeError> {
    if segment != ctx.segment then Some(Authentication(SegmentBinding))
    else if nonce != ctx.SessionNonce() then Some(Authentication(NonceMismatch))
    else if epoch != 0 then Some(Violation(EpochMismatch))
    else if n != 0 then Some(Violation(SeqUnexpected))
    else None
  }

  function VerifyConfirmBody(body: ConfirmBody, want: ConfirmBody): Option<HandshakeError> {
    if body.bookId != want.bookId || body.segmentIndex != want.segmentIndex then Some(Authentication(SegmentBinding))
    else if body.clientNonce != want.clientNonce || body.serverNonce != want.serverNonce then
      Some(Authentication(NonceMismatch))
    else if body.direction != want.direction || body.msgType != want.msgType || body.purpose != want.purpose then
      Some(Authentication(SegmentBinding))
    else if body.epoch != 0 then Some(Violation(EpochMismatch))
    else if body.seqNo != 0 then Some(Violation(SeqUnexpected))
    else None
  }

  /** Everything checked about an incoming confirm; the session that opened it, or why it was refused. */
  function AcceptConfirm(aead: Aead, s: SessionState, d: Direction, segment: u64, nonce: Bytes16, epoch: u32, n: u64,
                         sealed: Sealed): Result<SessionState, HandshakeError>
    requires s.Valid()
  {
    var outer := VerifyConfirmOuter(segment, nonce, epoch, n, s.ctx);
    if outer.Some? then Err(outer.value)
    else
      match Open(aead, s, ConfirmType(d), n, sealed)
      case (_, Err(e)) => Err(SessionOpenError(e))
      case (s', Ok(payload)) =>
        match Codec.DecodeConfirmBody(payload)
        case Err(code) => Err(Violation(code))
        case Ok(body) =>
          var inner := VerifyConfirmBody(body, ConfirmFor(s.ctx, d));
          if inner.Some? then Err(inner.value) else Ok(s')
  }

  /**
   * A confirm is accepted exactly when its outer fields name this session, record 0 of epoch 0, it is the first record
   * received, it opens, and what is inside is byte for byte what the peer of this very context seals.
   */
  lemma AcceptSucceedsIff(aead: Aead, s: SessionState, d: Direction, segment: u64, nonce: Bytes16, epoch: u32, n: u64,
                          sealed: Sealed)
    requires s.Valid()
    ensures AcceptConfirm(aead, s, d, segment, nonce, epoch, n, sealed).Ok? <==>
            && segment == s.ctx.segment && nonce == s.ctx.SessionNonce() && epoch == 0 && n == 0
            && s.terminated.None? && d == s.RecvDir() && s.LastReceived() == None
            && OpenBytes(aead, s, if d == ClientToServer then ClientConfirm else ServerConfirm, 0, sealed) ==
               Some(Codec.EncodeConfirmBody(ConfirmFor(s.ctx, d)))
  {
    hide BuildAad, RecordNonce, OpenBytes, ConfirmFor, Codec.EncodeConfirmBody, Codec.DecodeConfirmBody, SessionSpec.Open;
    OpenSucceedsIff(aead, s, ConfirmType(d), n, sealed);
    var body := ConfirmFor(s.ctx, d);
    ConfirmForFields(s.ctx, d);
    Codec.DecodeOfConfirmBody(body);
    var payload := Open(aead, s, ConfirmType(d), n, sealed).1;
    if payload.Ok? && Codec.DecodeConfirmBody(payload.value).Ok? {
      Codec.ConfirmBodyOfDecode(payload.value);
    }
  }

  lemma ConfirmForFields(ctx: SessionContext, d: Direction)
    ensures ConfirmFor(ctx, d).epoch == 0 && ConfirmFor(ctx, d).seqNo == 0
  {
  }

  /** Why a confirm is refused: the outer fields in their order, then what the session says, then the inner copy. */
  lemma AcceptRefuses(aead: Aead, s: SessionState, d: Direction, segment: u64, nonce: Bytes16, epoch: u32, n: u64,
                      sealed: Sealed)
    requires s.Valid() && AcceptConfirm(aead, s, d, segment, nonce, epoch, n, sealed).Err?
    ensures var e := AcceptConfirm(aead, s, d, segment, nonce, epoch, n, sealed).error;
            if segment != s.ctx.segment then e == Authentication(SegmentBinding)
            else if nonce != s.ctx.SessionNonce() then e == Authentication(NonceMismatch)
            else if epoch != 0 then e == Violation(EpochMismatch)
            else if n != 0 then e == Violation(SeqUnexpected)
            else
              match Open(aead, s, ConfirmType(d), 0, sealed).1
              case Err(error) => e == SessionOpenError(error)
              case Ok(payload) =>
                match Codec.DecodeConfirmBody(payload)
                case Err(code) => e == Violation(code)
                case Ok(body) =>
                  if body.bookId != s.ctx.bookId || body.segmentIndex != s.ctx.segment then e == Authentication(SegmentBinding)
                  else if body.clientNonce != s.ctx.clientNonce || body.serverNonce != s.ctx.serverNonce then
                    e == Authentication(NonceMismatch)
                  else if body.direction != d || body.msgType != (if d == ClientToServer then 4 else 5)
                          || body.purpose != (if d == ClientToServer then LABEL_C2S else LABEL_S2C) then
                    e == Authentication(SegmentBinding)
                  else if body.epoch != 0 then e == Violation(EpochMismatch)
                  else body.seqNo != 0 && e == Violation(SeqUnexpected)
  {
    hide BuildAad, RecordNonce, OpenBytes, Codec.EncodeConfirmBody, Codec.DecodeConfirmBody, SessionSpec.Open;
  }

  // ---- issuing ----

  /** The outcome of `count` issues in a row, stopping at the first failure: the last body, or that failure. */
  function IssuedInRow(answers: Answers, count: nat): Result<Bytes64, IssueError>
    requires count > 0
    decreases count
  {
    if |answers| == 0 then Err(IssueError.Io)
    else if answers[0].Err? || count == 1 then answers[0]
    else IssuedInRow(answers[1..], count - 1)
  }

  /** What a row of at most `count` draws is answered: it goes on while it succeeds, and ends with `count` or a failure. */
  predicate RowAnswers(answers: Answers, count: nat) {
    && |answers| <= count
    && (forall k :: 0 <= k < |answers| - 1 ==> answers[k].Ok?)
    && (|answers| < count ==> |answers| > 0 && answers[|answers| - 1].Err?)
  }

  /** The segments a row of draws yielded. */
  function Drawn(answers: Answers): nat {
    if |answers| > 0 && answers[|answers| - 1].Err? then |answers| - 1 else |answers|
  }

  /** A row succeeds exactly when every draw does, with the last body; answers beyond it are never looked at. */
  lemma {:induction false} RowOutcome(answers: Answers, count: nat, more: Answers)
    requires count > 0 && RowAnswers(answers, count)
    ensures IssuedInRow(answers, count) == answers[|answers| - 1] == IssuedInRow(answers + more, count)
    ensures IssuedInRow(answers, count).Ok? <==> Drawn(answers) == count
    decreases count
  {
    if answers[0].Ok? && count > 1 {
      assert (answers + more)[1..] == answers[1..] + more;
      RowOutcome(answers[1..], count - 1, more);
    }
  }

  // ---- the client ----

  /** `nonce` is what the random source gave, if it gave anything. */
  function ClientStart(c: ClientState, nonce: Option<Bytes16>): (ClientState, Result<Message, HandshakeError>) {
    if c.phase != ClientIdle then (c.(phase := ClientFailed), Err(Violation(BadOrder)))
    else
      match nonce
      case None => (c, Err(Csprng))
      case Some(n) =>
        (c.(clientNonce := Some(n), phase := HelloSent), Ok(Hello(c.cfg.bookId, n, c.cfg.localPointer, 0)))
  }

  function ClientOrderViolation(c: ClientState): (ClientState, Step) {
    (c.Fail(), StepFailed(Violation(BadOrder)))
  }

  function ClientContext(c: ClientState): SessionContext
    requires c.agreed.Some? && c.clientNonce.Some? && c.serverNonce.Some?
  {
    SessionContext(Client, c.cfg.bookId, c.agreed.value, c.clientNonce.value, c.serverNonce.value)
  }

  /** Burn the gap segment by segment, issue the agreed one, and confirm under its keys. */
  function IssueAndConfirm(aead: Aead, c: ClientState, answers: Answers): (ClientState, Step) {
    if c.agreed.None? then ClientOrderViolation(c)
    else
      var i := c.agreed.value;
      var gap := if c.cfg.localPointer < i then i - c.cfg.localPointer else 0;
      match IssuedInRow(answers, gap + 1)
      case Err(e) => (c.Fail(), StepFailed(Issuer(e)))
      case Ok(segment) =>
        if c.clientNonce.None? || c.serverNonce.None? then ClientOrderViolation(c)
        else
          var fresh0 := NewSession(segment, ClientContext(c));
          match SealConfirm(aead, fresh0, ClientToServer)
          case (_, Err(e)) => (c.Fail(), StepFailed(e))
          case (session, Ok(confirm)) =>
            (c.(session := Some(session), phase := ConfirmSent),
             Send([IssueRequest(i, c.clientNonce.value, c.serverNonce.value), confirm]))
  }

  function ClientOnArbitrate(aead: Aead, c: ClientState, nonce: Bytes16, sp: u64, result: ArbitrateResult,
                             answers: Answers): (ClientState, Step)
  {
    var cp := c.cfg.localPointer;
    var rejected := (c.(phase := ClientFailed), StepFailed(Violation(IssuePointerMismatch)));
    var agreed := c.(serverNonce := Some(nonce), agreed := Some(sp));
    match result
    case BookMismatch => (c.(phase := ClientFailed), StepFailed(WrongBook))
    case Exhausted =>
      if sp != c.cfg.segmentCount then rejected else (c.(phase := ClientFailed), StepFailed(OutOfSegments(sp)))
    case ClientAhead =>
      if sp >= cp then rejected else (c.(phase := AheadRecovery), StepFailed(ClientIsAhead(cp, sp)))
    case ResultOk => if sp != cp then rejected else IssueAndConfirm(aead, agreed, answers)
    case ServerAhead =>
      if sp <= cp then rejected else IssueAndConfirm(aead, agreed.(wastedGap := Some((cp, sp))), answers)
  }

  /**
   * The client goes on exactly with a verdict its own pointer bears out: equal pointers, or a server strictly ahead.
   * A verdict against it is believed on the same terms, and any other combination is refused as such.
   */
  lemma ArbitrationIsChecked(aead: Aead, c: ClientState, nonce: Bytes16, sp: u64, result: ArbitrateResult, answers: Answers)
    ensures var (c', step) := ClientOnArbitrate(aead, c, nonce, sp, result, answers);
            var cp := c.cfg.localPointer;
            && (result == BookMismatch ==> step == StepFailed(WrongBook) && c'.phase == ClientFailed)
            && (result == Exhausted && sp == c.cfg.segmentCount ==> step == StepFailed(OutOfSegments(sp)) && c'.phase == ClientFailed)
            && (result == ClientAhead && sp < cp ==> step == StepFailed(ClientIsAhead(cp, sp)) && c'.phase == AheadRecovery)
            && ((result == ResultOk && sp == cp) || (result == ServerAhead && sp > cp) ==>
                  (c', step) == IssueAndConfirm(
                    aead, c.(serverNonce := Some(nonce), agreed := Some(sp),
                             wastedGap := if result == ServerAhead then Some((cp, sp)) else c.wastedGap), answers))
            && ((result == Exhausted && sp != c.cfg.segmentCount) || (result == ClientAhead && sp >= cp)
                || (result == ResultOk && sp != cp) || (result == ServerAhead && sp <= cp) ==>
                  step == StepFailed(Violation(IssuePointerMismatch)) && c'.phase == ClientFailed && c'.agreed == c.agreed)
  {
    hide IssueAndConfirm;
  }

  function ClientOnConfirm(aead: Aead, c: ClientState, segment: u64, nonce: Bytes16, epoch: u32, n: u64, sealed: Sealed)
    : (ClientState, Step)
    requires c.session.Some? ==> c.session.value.Valid()
  {
    if c.agreed.None? || c.clientNonce.None? || c.serverNonce.None? || c.session.None? then ClientOrderViolation(c)
    else
      match AcceptConfirm(aead, c.session.value, ServerToClient, segment, nonce, epoch, n, sealed)
      case Err(e) => (c.Fail(), StepFailed(e))
      case Ok(session) =>
        (c.(phase := ClientEstablished, session := None), Established([], session, c.agreed.value))
  }

  predicate ClientValid(c: ClientState) {
    c.session.Some? ==> c.session.value.Valid() && c.agreed.Some? && c.clientNonce.Some? && c.serverNonce.Some?
                        && c.session.value.ctx == ClientContext(c) && c.phase != ClientIdle && c.phase != HelloSent
  }

  function ClientHandle(aead: Aead, c: ClientState, m: Message, answers: Answers): (ClientState, Step)
    requires ClientValid(c)
  {
    if c.phase == HelloSent && m.Arbitrate? then
      ClientOnArbitrate(aead, c, m.serverNonce, m.serverPointer, m.result, answers)
    else if c.phase == ConfirmSent && m.ConfirmS2c? then
      ClientOnConfirm(aead, c, m.segmentIndex, m.sessionNonce, m.epoch, m.seqNo, m.sealed)
    else ClientOrderViolation(c)
  }

  /** A client starts once; and it hears nothing but the arbitration after its hello, and the confirm after its own. */
  lemma ClientKeepsOrder(aead: Aead, c: ClientState, nonce: Option<Bytes16>, m: Message, answers: Answers)
    requires ClientValid(c)
    ensures c.phase != ClientIdle ==> ClientStart(c, nonce).1 == Err(Violation(BadOrder)) && ClientStart(c, nonce).0.phase == ClientFailed
    ensures c.phase == ClientIdle && nonce.None? ==> ClientStart(c, nonce) == (c, Err(Csprng))
    ensures c.phase == ClientIdle && nonce.Some? ==>
              && ClientStart(c, nonce).1 == Ok(Hello(c.cfg.bookId, nonce.value, c.cfg.localPointer, 0))
              && ClientStart(c, nonce).0.phase == HelloSent && ClientStart(c, nonce).0.clientNonce == nonce
    ensures !(c.phase == HelloSent && m.Arbitrate?) && !(c.phase == ConfirmSent && m.ConfirmS2c?) ==>
              var (c', step) := ClientHandle(aead, c, m, answers);
              step == StepFailed(Violation(BadOrder)) && c'.phase == ClientFailed && c'.session == None
  {
    hide SealConfirm, AcceptConfirm, IssueAndConfirm;
  }

  /** How many segments the client sets out to draw when it handles `m`. */
  function ClientAsks(c: ClientState, m: Message): nat {
    if c.phase != HelloSent || !m.Arbitrate? then 0
    else
      match m.result
      case ResultOk => if m.serverPointer == c.cfg.localPointer then 1 else 0
      case ServerAhead =>
        if m.serverPointer > c.cfg.localPointer then m.serverPointer - c.cfg.localPointer + 1 else 0
      case _ => 0
  }

  /**
   * The client looks at no more answers than it asks for, none if it refuses; it only sends when all of them are
   * segments, and the first failure ends the handshake.
   */
  lemma ClientDraws(aead: Aead, c: ClientState, m: Message, answers: Answers, more: Answers)
    requires ClientValid(c) && RowAnswers(answers, ClientAsks(c, m))
    ensures ClientHandle(aead, c, m, answers) == ClientHandle(aead, c, m, answers + more)
    ensures ClientHandle(aead, c, m, answers).1.Send? ==> Drawn(answers) == ClientAsks(c, m) > 0
    ensures Drawn(answers) < ClientAsks(c, m) ==>
              ClientHandle(aead, c, m, answers).1 == StepFailed(Issuer(answers[|answers| - 1].error))
  {
    hide AcceptConfirm, SealConfirm, IssuedInRow;
    if ClientAsks(c, m) > 0 {
      RowOutcome(answers, ClientAsks(c, m), more);
    }
  }

  function ClientAbort(c: ClientState, reason: ErrorCode): (ClientState, Step) {
    (c.Fail(), StepFailed(Violation(reason)))
  }

  // ---- the server ----

  /** What the two pointers and the book length decide, and the pointer sent back. */
  function Arbitration(sp: u64, cp: u64, n: u64): (ArbitrateResult, u64) {
    if sp >= n then (Exhausted, n)
    else if sp > cp then (ServerAhead, sp)
    else if cp > sp then (ClientAhead, sp)
    else (ResultOk, sp)
  }

  function ServerOnHello(s: ServerState, m: Message, nonce: Option<Bytes16>): (ServerState, Result<Message, HandshakeError>) {
    if s.phase != ServerIdle then (s.Fail(), Err(Violation(BadOrder)))
    else if !m.Hello? then (s.(phase := ServerFailed), Err(Violation(BadOrder)))
    else
      var heard := s.(clientNonce := Some(m.clientNonce));
      if nonce.None? then (heard, Err(Csprng))
      else if m.bookId != s.cfg.bookId then
        (heard.(phase := ServerFailed), Ok(Arbitrate(nonce.value, 0, BookMismatch)))
      else
        var (result, pointer) := Arbitration(s.cfg.localPointer, m.clientPointer, s.cfg.segmentCount);
        (match result
         case Exhausted => heard.(phase := ServerFailed)
         case ClientAhead => heard.(phase := AheadPending)
         case _ => heard.(serverNonce := nonce, agreed := Some(s.cfg.localPointer), phase := IssueWait),
         Ok(Arbitrate(nonce.value, pointer, result)))
  }

  /** The server's verdict on a hello, and whether it goes on: only with a segment left and a client not ahead of it. */
  lemma HelloIsJudged(s: ServerState, m: Message, nonce: Bytes16)
    requires s.phase == ServerIdle && m.Hello?
    ensures var (s', r) := ServerOnHello(s, m, Some(nonce));
            var sp, cp, n := s.cfg.localPointer, m.clientPointer, s.cfg.segmentCount;
            && (m.bookId != s.cfg.bookId ==> r == Ok(Arbitrate(nonce, 0, BookMismatch)) && s'.phase == ServerFailed)
            && (m.bookId == s.cfg.bookId && sp >= n ==> r == Ok(Arbitrate(nonce, n, Exhausted)) && s'.phase == ServerFailed)
            && (m.bookId == s.cfg.bookId && sp < n && cp > sp ==>
                  r == Ok(Arbitrate(nonce, sp, ClientAhead)) && s'.phase == AheadPending)
            && (m.bookId == s.cfg.bookId && sp < n && cp <= sp ==>
                  && r == Ok(Arbitrate(nonce, sp, if cp == sp then ResultOk else ServerAhead)) && s'.phase == IssueWait
                  && s'.agreed == Some(sp) && s'.serverNonce == Some(nonce) && s'.clientNonce == Some(m.clientNonce))
  {
  }

  function ServerOrderViolation(s: ServerState): (ServerState, Step) {
    (s.Fail(), StepFailed(Violation(BadOrder)))
  }

  function ServerContext(s: ServerState): SessionContext
    requires s.agreed.Some? && s.clientNonce.Some? && s.serverNonce.Some?
  {
    SessionContext(Server, s.cfg.bookId, s.agreed.value, s.clientNonce.value, s.serverNonce.value)
  }

  predicate ServerValid(s: ServerState) {
    s.session.Some? ==> s.session.value.Valid() && s.agreed.Some? && s.clientNonce.Some? && s.serverNonce.Some?
                        && s.session.value.ctx == ServerContext(s) && s.phase != ServerIdle && s.phase != IssueWait
  }

  function ServerOnIssueRequest(s: ServerState, m: Message, answers: Answers): (ServerState, Step) {
    if s.phase != IssueWait || !m.IssueRequest? || s.agreed.None? then ServerOrderViolation(s)
    else if m.chosenPointer != s.agreed.value then
      (s.(phase := ServerFailed), StepFailed(Violation(IssuePointerMismatch)))
    else if s.clientNonce.None? || s.serverNonce.None? then ServerOrderViolation(s)
    else if Some(m.clientNonce) != s.clientNonce || Some(m.serverNonce) != s.serverNonce then
      (s.Fail(), StepFailed(Authentication(NonceMismatch)))
    else
      match IssuedInRow(answers, 1)
      case Err(e) => (s.(phase := ServerFailed), StepFailed(Issuer(e)))
      case Ok(segment) =>
        (s.(session := Some(NewSession(segment, ServerContext(s))), phase := ConfirmWait), AwaitPeer)
  }

  /** How many segments the server sets out to draw when it handles `m`: none for a request it refuses. */
  function ServerAsks(s: ServerState, m: Message): nat {
    if s.phase == IssueWait && m.IssueRequest? && Some(m.chosenPointer) == s.agreed
       && Some(m.clientNonce) == s.clientNonce && Some(m.serverNonce) == s.serverNonce
    then 1 else 0
  }

  lemma ServerDraws(s: ServerState, m: Message, answers: Answers, more: Answers)
    requires RowAnswers(answers, ServerAsks(s, m))
    ensures ServerOnIssueRequest(s, m, answers) == ServerOnIssueRequest(s, m, answers + more)
    ensures ServerOnIssueRequest(s, m, answers).1 == AwaitPeer <==> Drawn(answers) == ServerAsks(s, m) > 0
  {
    hide IssuedInRow;
    if ServerAsks(s, m) > 0 {
      RowOutcome(answers, 1, more);
    }
  }

  /** Why a request is refused: out of turn, another segment than the one agreed, other nonces, or no segment drawn. */
  lemma RequestRefused(s: ServerState, m: Message, answers: Answers)
    ensures var (s', step) := ServerOnIssueRequest(s, m, answers);
            if s.phase != IssueWait || !m.IssueRequest? || s.agreed.None? then step == StepFailed(Violation(BadOrder))
            else if m.chosenPointer != s.agreed.value then step == StepFailed(Violation(IssuePointerMismatch))
            else if s.clientNonce.None? || s.serverNonce.None? then step == StepFailed(Violation(BadOrder))
            else if m.clientNonce != s.clientNonce.value || m.serverNonce != s.serverNonce.value then
              step == StepFailed(Authentication(NonceMismatch))
            else if answers != [] && answers[0].Ok? then
              step == AwaitPeer && s'.phase == ConfirmWait && s'.session.Some? && KeyedBy(s'.session.value, answers[0].value)
              && s'.session.value.ctx == SessionContext(Server, s.cfg.bookId, s.agreed.value, s.clientNonce.value, s.serverNonce.value)
            else step == StepFailed(Issuer(if answers == [] then IssueError.Io else answers[0].error))
    ensures ServerOnIssueRequest(s, m, answers).1.StepFailed? ==> ServerOnIssueRequest(s, m, answers).0.phase == ServerFailed
  {
  }

  /** The code under which each failure is reported to the peer. */
  lemma CodesOfErrors(e: HandshakeError)
    ensures e.Code() == BookMismatchCode <==>
            e == WrongBook || e == Issuer(IssueError.BookMismatch) || e == Authentication(BookMismatchCode) || e == Violation(BookMismatchCode)
    ensures e.OutOfSegments? || (e.Issuer? && e.issue.Exhausted?) ==> e.Code() == ExhaustedCode
    ensures e.ClientIsAhead? ==> e.Code() == ClientAheadCode
    ensures e.Authentication? ==> e.Code() == e.auth
    ensures e.Violation? ==> e.Code() == e.violation
    ensures e == Issuer(IssueError.PersistenceUncertain) ==> e.Code() == PersistenceUnverified
    ensures e == Issuer(IssueError.InvalidRange) ==> e.Code() == InternalCode
    ensures e.Issuer? && e.issue in {IssueError.Io, IssueError.AnchorCorrupt, IssueError.LockUnavailable} ==> e.Code() == IoErrorCode
    ensures e == Csprng ==> e.Code() == CsprngFailure
  {
  }

  function ServerOnConfirm(aead: Aead, s: ServerState, m: Message): (ServerState, Step)
    requires ServerValid(s)
  {
    if s.phase != ConfirmWait || !m.ConfirmC2s? || s.agreed.None? || s.clientNonce.None? || s.serverNonce.None?
       || s.session.None?
    then ServerOrderViolation(s)
    else
      match AcceptConfirm(aead, s.session.value, ClientToServer, m.segmentIndex, m.sessionNonce, m.epoch, m.seqNo, m.sealed)
      case Err(e) => (s.Fail(), StepFailed(e))
      case Ok(opened') =>
        AcceptKeepsValid(aead, s.session.value, ClientToServer, m.segmentIndex, m.sessionNonce, m.epoch, m.seqNo, m.sealed);
        match SealConfirm(aead, opened', ServerToClient)
        case (_, Err(e)) => (s.Fail(), StepFailed(e))
        case (session, Ok(confirm)) =>
          (s.(phase := ServerEstablished, session := None), Established([confirm], session, s.agreed.value))
  }

  /** A server hears a hello first, and the client's confirm only after its request. */
  lemma ServerKeepsOrder(aead: Aead, s: ServerState, m: Message, nonce: Option<Bytes16>)
    requires ServerValid(s)
    ensures s.phase != ServerIdle || !m.Hello? ==>
              ServerOnHello(s, m, nonce).1 == Err(Violation(BadOrder)) && ServerOnHello(s, m, nonce).0.phase == ServerFailed
    ensures s.phase == ServerIdle && m.Hello? && nonce.None? ==>
              ServerOnHello(s, m, nonce).1 == Err(Csprng) && ServerOnHello(s, m, nonce).0.phase == ServerIdle
    ensures s.phase != ConfirmWait || !m.ConfirmC2s? ==>
              var (s', step) := ServerOnConfirm(aead, s, m);
              step == StepFailed(Violation(BadOrder)) && s'.phase == ServerFailed && s'.session == None
  {
    hide SealConfirm, AcceptConfirm;
  }

  lemma AcceptKeepsValid(aead: Aead, s: SessionState, d: Direction, segment: u64, nonce: Bytes16, epoch: u32, n: u64,
                         sealed: Sealed)
    requires s.Valid()
    ensures var r := AcceptConfirm(aead, s, d, segment, nonce, epoch, n, sealed);
            r.Ok? ==> r.value == s.(recvLast := s.recvLast.Set(s.RecvDir(), Some(0))) && r.value.Valid()
                      && OpenBytes(aead, s, ConfirmType(d), 0, sealed).Some?
                      && s.keys.Some? && segment == s.ctx.segment && nonce == s.ctx.SessionNonce()
  {
    hide BuildAad, RecordNonce, Codec.DecodeConfirmBody;
  }

  function ServerAbort(s: ServerState, reason: ErrorCode): (ServerState, Step) {
    (s.Fail(), StepFailed(Violation(reason)))
  }
}
