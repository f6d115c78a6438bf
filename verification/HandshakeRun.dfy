/**
 * An honest client and an honest server driven against each other, every message passing through the codec:
 * the whole run is decided by the book identities, the two pointers and the length of the book.
 */
module HandshakeRun {
  import opened Bytes
  import opened Types
  import opened Message
  import opened SessionSpec
  import opened HandshakeSpec
  import AllocatorRuns
  import Codec

  /** One end: its book and where its allocator stands. */
  datatype Side = Side(bookId: Bytes16, book: seq<Bytes64>, pointer: u64) {
    predicate Valid() {
      pointer <= |book| <= U64_MAX
    }

    function Cfg(): Config
      requires Valid()
    {
      Config(bookId, pointer, |book|)
    }

    /**
     * What a healthy allocator does when asked for `count` segments one by one: the answers, up to the first
     * failure, and where it stands afterwards.
     */
    function Draw(count: nat): (r: (Side, Answers))
      requires Valid()
      ensures r.0.Valid() && r.0.bookId == bookId && r.0.book == book && r.0.pointer == pointer + Drawn(r.1)
      ensures RowAnswers(r.1, count)
      decreases count
    {
      if count == 0 then (this, [])
      else if pointer >= |book| then (this, [Err(IssueError.Exhausted(pointer))])
      else
        var (after, later) := this.(pointer := pointer + 1).Draw(count - 1);
        (after, [Ok(book[pointer])] + later)
    }
  }

  /** A session, or the error code an end gives up with. */
  datatype EndResult = Up(session: SessionState, segment: u64) | Down(code: ErrorCode)

  datatype Outcome = Outcome(client: EndResult, server: EndResult, clientPointer: nat, serverPointer: nat)

  /** A message sent by one end and read by the other. */
  function Transmit(role: Role, m: Message): Result<Message, ErrorCode> {
    if Codec.Unencodable(m).Some? then Err(Codec.Unencodable(m).value) else Codec.Decode(role, Codec.Frame(m))
  }

  lemma TransmitIsIdentity(role: Role, m: Message)
    requires Codec.Unencodable(m) == None && Codec.RoleMayReceive(role, m.Type())
    ensures Transmit(role, m) == Ok(m)
  {
    Codec.DecodeOfFrame(role, m);
  }

  /** The error with which the server gives up right after sending this arbitration, if it does. */
  function TerminalArbitration(m: Message, cp: u64): Option<HandshakeError> {
    if !m.Arbitrate? then None
    else
      match m.result
      case BookMismatch => Some(WrongBook)
      case Exhausted => Some(OutOfSegments(m.serverPointer))
      case ClientAhead => Some(ClientIsAhead(cp, m.serverPointer))
      case _ => None
  }

  /** Hello and arbitration; then, unless that ends it, the rest of the exchange. */
  function Drive(aead: Aead, c: Side, s: Side, cn: Bytes16, sn: Bytes16): Outcome
    requires c.Valid() && s.Valid()
  {
    var (client, hello) := ClientStart(NewClient(c.Cfg()), Some(cn));
    if hello.Err? then Outcome(Down(hello.error.Code()), Down(IoErrorCode), c.pointer, s.pointer)
    else
      var heard := Transmit(Server, hello.value);
      if heard.Err? then Outcome(Down(IoErrorCode), Down(heard.error), c.pointer, s.pointer)
      else
        var (server, arbitrate) := ServerOnHello(NewServer(s.Cfg()), heard.value, Some(sn));
        if arbitrate.Err? then Outcome(Down(IoErrorCode), Down(arbitrate.error.Code()), c.pointer, s.pointer)
        else
          var answered := Transmit(Client, arbitrate.value);
          if answered.Err? then Outcome(Down(answered.error), Down(IoErrorCode), c.pointer, s.pointer)
          else
            var terminal := TerminalArbitration(arbitrate.value, c.pointer);
            var (c', answers) := c.Draw(ClientAsks(client, answered.value));
            match ClientHandle(aead, client, answered.value, answers)
            case (client', StepFailed(e)) =>
              Outcome(Down(e.Code()), Down(if terminal.Some? then terminal.value.Code() else IoErrorCode),
                      c'.pointer, s.pointer)
            case (client', Send(outbox)) =>
              if terminal.Some? || |outbox| != 2
              then Outcome(Down(IoErrorCode), Down(IoErrorCode), c'.pointer, s.pointer)
              else Confirm(aead, c', s, client', server, outbox[0], outbox[1])
            case _ => Outcome(Down(BadOrder), Down(IoErrorCode), c'.pointer, s.pointer)
  }

  /** The issue request and the two confirms. */
  function Confirm(aead: Aead, c: Side, s: Side, client: ClientState, server: ServerState, request: Message, confirm: Message)
    : Outcome
    requires c.Valid() && s.Valid()
  {
    var request' := Transmit(Server, request);
    var confirm' := Transmit(Server, confirm);
    if request'.Err? || confirm'.Err? then Outcome(Down(IoErrorCode), Down(IoErrorCode), c.pointer, s.pointer)
    else
      var (s', answers) := s.Draw(ServerAsks(server, request'.value));
      match ServerOnIssueRequest(server, request'.value, answers)
      case (server', AwaitPeer) =>
        if !ServerValid(server') || !ClientValid(client)
        then Outcome(Down(IoErrorCode), Down(IoErrorCode), c.pointer, s'.pointer)
        else
          (match ServerOnConfirm(aead, server', confirm'.value)
           case (_, Established(outbox, session, segment)) =>
             if |outbox| != 1 || Transmit(Client, outbox[0]).Err?
             then Outcome(Down(IoErrorCode), Up(session, segment), c.pointer, s'.pointer)
             else
               var back := Transmit(Client, outbox[0]).value;
               var (c', more) := c.Draw(ClientAsks(client, back));
               (match ClientHandle(aead, client, back, more)
                case (_, Established(_, own, ownSegment)) =>
                  Outcome(Up(own, ownSegment), Up(session, segment), c'.pointer, s'.pointer)
                case (_, StepFailed(e)) => Outcome(Down(e.Code()), Up(session, segment), c'.pointer, s'.pointer)
                case _ => Outcome(Down(BadOrder), Up(session, segment), c'.pointer, s'.pointer))
           case (_, StepFailed(e)) => Outcome(Down(IoErrorCode), Down(e.Code()), c.pointer, s'.pointer)
           case _ => Outcome(Down(IoErrorCode), Down(BadOrder), c.pointer, s'.pointer))
      case (_, StepFailed(e)) => Outcome(Down(IoErrorCode), Down(e.Code()), c.pointer, s'.pointer)
      case _ => Outcome(Down(IoErrorCode), Down(BadOrder), c.pointer, s'.pointer)
  }

  // ---- what the run comes to ----

  /** The common code with which both ends give up, if they do. */
  function Refusal(c: Side, s: Side): Option<ErrorCode> {
    if c.bookId != s.bookId then Some(BookMismatchCode)
    else if s.pointer >= |s.book| then Some(ExhaustedCode)
    else if c.pointer > s.pointer then Some(ClientAheadCode)
    else None
  }

  function Context(role: Role, s: Side, cn: Bytes16, sn: Bytes16): SessionContext {
    SessionContext(role, s.bookId, s.pointer, cn, sn)
  }

  /** An established end: keyed by the agreed segment, its confirm sent, its peer's accepted. */
  function EstablishedEnd(role: Role, s: Side, cn: Bytes16, sn: Bytes16): SessionState
    requires s.pointer < |s.book|
  {
    var d := role.SendDirection();
    var start := NewSession(s.book[s.pointer], Context(role, s, cn, sn));
    start.(sendSeq := start.sendSeq.Set(d, 1), recvLast := start.recvLast.Set(d.Opposite(), Some(0)))
  }

  lemma EstablishedIsKeyed(role: Role, s: Side, cn: Bytes16, sn: Bytes16)
    requires s.pointer < |s.book|
    ensures KeyedBy(EstablishedEnd(role, s, cn, sn), s.book[s.pointer])
  {
    hide SplitKeys;
    NewIsKeyed(s.book[s.pointer], Context(role, s, cn, sn));
  }

  lemma {:induction false} HealthyAnswers(c: Side, count: nat)
    requires c.Valid() && c.pointer + count <= |c.book|
    ensures var answers := c.Draw(count).1;
            |answers| == count && forall k :: 0 <= k < count ==> answers[k] == Ok(c.book[c.pointer + k])
    decreases count
  {
    hide RowAnswers, Drawn;
    if count > 0 {
      HealthyAnswers(c.(pointer := c.pointer + 1), count - 1);
    }
  }

  lemma HealthyDraws(c: Side, count: nat)
    requires c.Valid() && 0 < count && c.pointer + count <= |c.book|
    ensures var (c', answers) := c.Draw(count);
            c'.pointer == c.pointer + count && IssuedInRow(answers, count) == Ok(c.book[c.pointer + count - 1])
  {
    hide IssuedInRow;
    HealthyAnswers(c, count);
    RowOutcome(c.Draw(count).1, count, []);
  }

  function Sealed0(aead: Aead, s: SessionState, d: Direction): seq<byte>
    requires s.keys.Some?
  {
    SealBytes(aead, s, ConfirmType(d), Codec.EncodeConfirmBody(ConfirmFor(s.ctx, d)))
  }

  /** A fresh sender's confirm, and what it leaves behind. */
  lemma FirstConfirm(aead: Aead, s: SessionState)
    requires s.Valid() && s.terminated.None? && s.NextSend() == 0
    ensures var d := s.SendDir();
            var c := Sealed0(aead, s, d);
            |c| == SEALED_LEN &&
            SealConfirm(aead, s, d) ==
            (s.(sendSeq := s.sendSeq.Set(d, 1)),
             Ok(if d == ClientToServer then ConfirmC2s(s.ctx.segment, s.ctx.SessionNonce(), 0, 0, c)
                else ConfirmS2c(s.ctx.segment, s.ctx.SessionNonce(), 0, 0, c)))
  {
    hide BuildAad, RecordNonce, Codec.EncodeConfirmBody;
  }

  /** A peer with the same context and keys accepts it. */
  lemma FirstConfirmAccepted(aead: Aead, s: SessionState, r: SessionState)
    requires aead.Undoes() && s.Valid() && r.Valid() && Paired(s, r) && s.terminated.None? && s.NextSend() == 0
    requires r.LastReceived() == None && |Sealed0(aead, s, s.SendDir())| == SEALED_LEN
    ensures AcceptConfirm(aead, r, s.SendDir(), s.ctx.segment, s.ctx.SessionNonce(), 0, 0, Sealed0(aead, s, s.SendDir())) ==
            Ok(r.(recvLast := r.recvLast.Set(r.RecvDir(), Some(0))))
  {
    hide BuildAad, RecordNonce, Codec.EncodeConfirmBody, Codec.DecodeConfirmBody;
    var d := s.SendDir();
    var body := ConfirmFor(s.ctx, d);
    Codec.DecodeOfConfirmBody(body);
    SealedRecordOpens(aead, s, r, ConfirmType(d), Codec.EncodeConfirmBody(body));
    assert ConfirmFor(r.ctx, d) == body;
  }

  lemma HelloExchange(c: Side, s: Side, cn: Bytes16, sn: Bytes16)
    requires c.Valid() && s.Valid()
    ensures var hello := Hello(c.bookId, cn, c.pointer, 0);
            && ClientStart(NewClient(c.Cfg()), Some(cn)) ==
               (NewClient(c.Cfg()).(clientNonce := Some(cn), phase := HelloSent), Ok(hello))
            && Transmit(Server, hello) == Ok(hello)
            && var arbitrate := ServerOnHello(NewServer(s.Cfg()), hello, Some(sn)).1;
               && arbitrate.Ok? && arbitrate.value.Arbitrate? && Transmit(Client, arbitrate.value) == Ok(arbitrate.value)
  {
    hide Codec.Decode, Codec.Frame;
    var hello := Hello(c.bookId, cn, c.pointer, 0);
    TransmitIsIdentity(Server, hello);
    TransmitIsIdentity(Client, ServerOnHello(NewServer(s.Cfg()), hello, Some(sn)).1.value);
  }

  /** When the arbitration is against it, both ends give up with the same code and neither allocator moves. */
  lemma RefusedRun(aead: Aead, c: Side, s: Side, cn: Bytes16, sn: Bytes16)
    requires c.Valid() && s.Valid() && (c.bookId == s.bookId ==> c.book == s.book)
    requires Refusal(c, s).Some?
    ensures var code := Refusal(c, s).value;
            Drive(aead, c, s, cn, sn) == Outcome(Down(code), Down(code), c.pointer, s.pointer)
  {
    hide Transmit, Confirm, IssueAndConfirm;
    HelloExchange(c, s, cn, sn);
  }

  function ClientAfterHello(c: Side, cn: Bytes16): ClientState
    requires c.Valid()
  {
    NewClient(c.Cfg()).(clientNonce := Some(cn), phase := HelloSent)
  }

  /** The client's answer to an acceptable arbitration. */
  lemma ClientIssues(aead: Aead, c: Side, s: Side, cn: Bytes16, sn: Bytes16, result: ArbitrateResult)
    requires c.Valid() && s.Valid() && c.bookId == s.bookId && c.book == s.book
    requires c.pointer <= s.pointer < |s.book|
    requires result == if c.pointer == s.pointer then ResultOk else ServerAhead
    ensures var session := NewSession(s.book[s.pointer], Context(Client, s, cn, sn));
            var sealed := Sealed0(aead, session, ClientToServer);
            var arbitrate := Arbitrate(sn, s.pointer, result);
            var (c', answers) := c.Draw(ClientAsks(ClientAfterHello(c, cn), arbitrate));
            var (client, step) := ClientHandle(aead, ClientAfterHello(c, cn), arbitrate, answers);
            && |sealed| == SEALED_LEN && c'.pointer == s.pointer + 1
            && step == Send([IssueRequest(s.pointer, cn, sn),
                             ConfirmC2s(s.pointer, XorSeq(cn, sn), 0, 0, sealed)])
            && client.phase == ConfirmSent && client.agreed == Some(s.pointer) && client.clientNonce == Some(cn)
            && client.serverNonce == Some(sn) && client.cfg == c.Cfg()
            && client.session == Some(session.(sendSeq := PerDirection(1, 0)))
            && KeyedBy(client.session.value, s.book[s.pointer])
  {
    hide SealConfirm, Sealed0, XorSeq, IssuedInRow, RowAnswers, Drawn, SplitKeys;
    HealthyDraws(c, s.pointer - c.pointer + 1);
    NewIsKeyed(s.book[s.pointer], Context(Client, s, cn, sn));
    FirstConfirm(aead, NewSession(s.book[s.pointer], Context(Client, s, cn, sn)));
  }

  lemma ServerAccepts(aead: Aead, s: Side, cn: Bytes16, sn: Bytes16)
    requires aead.Undoes() && s.Valid() && s.pointer < |s.book|
    ensures var clientSession := NewSession(s.book[s.pointer], Context(Client, s, cn, sn));
            var sealed := Sealed0(aead, clientSession, ClientToServer);
            var waiting := NewServer(s.Cfg()).(clientNonce := Some(cn), serverNonce := Some(sn),
                                               agreed := Some(s.pointer), phase := IssueWait);
            var serverSession := NewSession(s.book[s.pointer], Context(Server, s, cn, sn));
            var opened' := serverSession.(recvLast := serverSession.recvLast.Set(ClientToServer, Some(0)));
            var request := IssueRequest(s.pointer, cn, sn);
            var (s', answers) := s.Draw(ServerAsks(waiting, request));
            var (server, step) := ServerOnIssueRequest(waiting, request, answers);
            && |sealed| == SEALED_LEN && s'.pointer == s.pointer + 1
            && step == AwaitPeer && ServerValid(server)
            && |Sealed0(aead, opened', ServerToClient)| == SEALED_LEN
            && ServerOnConfirm(aead, server, ConfirmC2s(s.pointer, XorSeq(cn, sn), 0, 0, sealed)).1 ==
               Established([ConfirmS2c(s.pointer, XorSeq(cn, sn), 0, 0, Sealed0(aead, opened', ServerToClient))],
                           EstablishedEnd(Server, s, cn, sn), s.pointer)
  {
    hide SealConfirm, AcceptConfirm, Sealed0, XorSeq;
    var clientSession := NewSession(s.book[s.pointer], Context(Client, s, cn, sn));
    var serverSession := NewSession(s.book[s.pointer], Context(Server, s, cn, sn));
    var opened' := serverSession.(recvLast := serverSession.recvLast.Set(ClientToServer, Some(0)));
    HealthyDraws(s, 1);
    FirstConfirm(aead, clientSession);
    FirstConfirmAccepted(aead, clientSession, serverSession);
    FirstConfirm(aead, opened');
  }

  /** The server as it waits for the issue request. */
  function ServerWaiting(s: Side, cn: Bytes16, sn: Bytes16): ServerState
    requires s.Valid()
  {
    NewServer(s.Cfg()).(clientNonce := Some(cn), serverNonce := Some(sn), agreed := Some(s.pointer), phase := IssueWait)
  }

  /** The client as it waits for the server's confirm. */
  predicate ClientWaiting(client: ClientState, s: Side, cn: Bytes16, sn: Bytes16)
    requires s.pointer < |s.book|
  {
    && client.phase == ConfirmSent && client.agreed == Some(s.pointer) && client.clientNonce == Some(cn)
    && client.serverNonce == Some(sn) && client.cfg.bookId == s.bookId
    && client.session == Some(NewSession(s.book[s.pointer], Context(Client, s, cn, sn)).(sendSeq := PerDirection(1, 0)))
  }

  lemma ConfirmsRun(aead: Aead, c: Side, s: Side, cn: Bytes16, sn: Bytes16, client: ClientState)
    requires aead.Undoes() && c.Valid() && s.Valid() && s.pointer < |s.book| && ClientWaiting(client, s, cn, sn)
    ensures var sealed := Sealed0(aead, NewSession(s.book[s.pointer], Context(Client, s, cn, sn)), ClientToServer);
            |sealed| == SEALED_LEN &&
            Confirm(aead, c, s, client, ServerWaiting(s, cn, sn), IssueRequest(s.pointer, cn, sn),
                    ConfirmC2s(s.pointer, XorSeq(cn, sn), 0, 0, sealed)) ==
            Outcome(Up(EstablishedEnd(Client, s, cn, sn), s.pointer), Up(EstablishedEnd(Server, s, cn, sn), s.pointer),
                    c.pointer, s.pointer + 1)
  {
    hide Transmit, SealConfirm, AcceptConfirm, Sealed0, XorSeq, IssuedInRow;
    ServerAccepts(aead, s, cn, sn);
    var clientSession := NewSession(s.book[s.pointer], Context(Client, s, cn, sn));
    var serverSession := NewSession(s.book[s.pointer], Context(Server, s, cn, sn));
    var opened' := serverSession.(recvLast := serverSession.recvLast.Set(ClientToServer, Some(0)));
    var sealed := Sealed0(aead, clientSession, ClientToServer);
    var back := ConfirmS2c(s.pointer, XorSeq(cn, sn), 0, 0, Sealed0(aead, opened', ServerToClient));
    TransmitIsIdentity(Server, IssueRequest(s.pointer, cn, sn));
    TransmitIsIdentity(Server, ConfirmC2s(s.pointer, XorSeq(cn, sn), 0, 0, sealed));
    TransmitIsIdentity(Client, back);
    FirstConfirmAccepted(aead, opened', clientSession.(sendSeq := PerDirection(1, 0)));
  }

  /**
   * Otherwise both ends establish sessions on the server's segment, both keyed by its two halves, and both allocators
   * stand one past it.
   */
  lemma AgreedRun(aead: Aead, c: Side, s: Side, cn: Bytes16, sn: Bytes16)
    requires aead.Undoes() && c.Valid() && s.Valid() && c.bookId == s.bookId && c.book == s.book
    requires Refusal(c, s) == None
    ensures Drive(aead, c, s, cn, sn) ==
            Outcome(Up(EstablishedEnd(Client, s, cn, sn), s.pointer), Up(EstablishedEnd(Server, s, cn, sn), s.pointer),
                    s.pointer + 1, s.pointer + 1)
    ensures KeyedBy(EstablishedEnd(Client, s, cn, sn), s.book[s.pointer])
    ensures KeyedBy(EstablishedEnd(Server, s, cn, sn), s.book[s.pointer])
  {
    hide Transmit, SealConfirm, Sealed0, XorSeq, IssueAndConfirm, Confirm, ClientHandle, ClientAsks, NewSession, EstablishedEnd;
    HelloExchange(c, s, cn, sn);
    EstablishedIsKeyed(Client, s, cn, sn);
    EstablishedIsKeyed(Server, s, cn, sn);
    var result := if c.pointer == s.pointer then ResultOk else ServerAhead;
    var arbitrate := Arbitrate(sn, s.pointer, result);
    ClientIssues(aead, c, s, cn, sn, result);
    var (c', answers) := c.Draw(ClientAsks(ClientAfterHello(c, cn), arbitrate));
    ConfirmsRun(aead, c', s, cn, sn, ClientHandle(aead, ClientAfterHello(c, cn), arbitrate, answers).0);
  }
}
