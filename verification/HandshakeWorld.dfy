/**
 * Any number of client and server machines, fed anything in any order. The AEAD is idealised only in that
 * what opens was sealed before: whoever establishes a session has a peer that sealed the confirm it accepted
 * for the same book, segment and nonces.
 */
module HandshakeWorld {
  import opened Bytes
  import opened Types
  import opened Message
  import opened SessionSpec
  import opened HandshakeSpec
  import Codec

  datatype Party = TheClient(client: ClientState) | TheServer(server: ServerState) {
    predicate Valid() {
      match this
      case TheClient(c) => ClientValid(c)
      case TheServer(s) => ServerValid(s)
    }

    function Role(): Role {
      if TheClient? then Client else Server
    }

    function BookId(): Bytes16 {
      if TheClient? then client.cfg.bookId else server.cfg.bookId
    }

    function Agreed(): Option<u64> {
      if TheClient? then client.agreed else server.agreed
    }

    function Nonces(): (Option<Bytes16>, Option<Bytes16>) {
      if TheClient? then (client.clientNonce, client.serverNonce) else (server.clientNonce, server.serverNonce)
    }

    /** Past the point where the agreed segment and the nonces are set. */
    predicate Settled() {
      match this
      case TheClient(c) => c.phase != ClientIdle && c.phase != HelloSent
      case TheServer(s) => s.phase != ServerIdle
    }

    /** Over: no session in hand and none to come. */
    predicate Finished() {
      match this
      case TheClient(c) => (c.phase == ClientEstablished || c.phase == ClientFailed) && c.session.None?
      case TheServer(s) => (s.phase == ServerEstablished || s.phase == ServerFailed) && s.session.None?
    }
  }

  /** The party's own account of what it agreed on is this context. */
  predicate Holds(p: Party, ctx: SessionContext) {
    p.Role() == ctx.role && p.BookId() == ctx.bookId && p.Agreed() == Some(ctx.segment)
    && p.Nonces() == (Some(ctx.clientNonce), Some(ctx.serverNonce))
  }

  /** A sealed confirm: who sealed it, in what session, and all the AEAD was given. */
  datatype Entry = Entry(
    owner: nat, ctx: SessionContext, key: Bytes32, nonce: seq<byte>, aad: seq<byte>, plaintext: seq<byte>, sealed: seq<byte>)

  function EntryFor(owner: nat, session: SessionState, sealed: seq<byte>): Entry
    requires session.keys.Some?
  {
    var d := session.SendDir();
    Entry(owner, session.ctx, session.keys.value.For(d), RecordNonce(session.ctx, d, 0),
          BuildAad(session.ctx, ConfirmType(d), d, 0, 0), Codec.EncodeConfirmBody(ConfirmFor(session.ctx, d)), sealed)
  }

  /** The session a party ended its handshake with, and the sealed bytes of the confirm it accepted. */
  datatype Ending = Ending(session: SessionState, accepted: seq<byte>)

  datatype World = World(parties: seq<Party>, log: seq<Entry>, established: map<nat, Ending>)

  datatype Input =
    | StartClient(nonce: Option<Bytes16>)
    | FeedClient(message: Message, answers: Answers)
    | FeedHello(hello: Message, serverNonce: Option<Bytes16>)
    | FeedIssue(request: Message, issueAnswers: Answers)
    | FeedConfirm(confirm: Message)
    | AbortWith(reason: ErrorCode)

  /** A party's next state and the outcome of the call. An input of the other role is ignored. */
  function React(aead: Aead, p: Party, input: Input): (Party, Step)
    requires p.Valid()
  {
    match (p, input)
    case (TheClient(c), StartClient(nonce)) =>
      (match ClientStart(c, nonce)
       case (c', Ok(m)) => (TheClient(c'), Send([m]))
       case (c', Err(e)) => (TheClient(c'), StepFailed(e)))
    case (TheClient(c), FeedClient(m, answers)) =>
      (match ClientHandle(aead, c, m, answers) case (c', step) => (TheClient(c'), step))
    case (TheClient(c), AbortWith(reason)) =>
      (match ClientAbort(c, reason) case (c', step) => (TheClient(c'), step))
    case (TheServer(s), FeedHello(m, nonce)) =>
      (match ServerOnHello(s, m, nonce)
       case (s', Ok(reply)) => (TheServer(s'), Send([reply]))
       case (s', Err(e)) => (TheServer(s'), StepFailed(e)))
    case (TheServer(s), FeedIssue(m, answers)) =>
      (match ServerOnIssueRequest(s, m, answers) case (s', step) => (TheServer(s'), step))
    case (TheServer(s), FeedConfirm(m)) =>
      (match ServerOnConfirm(aead, s, m) case (s', step) => (TheServer(s'), step))
    case (TheServer(s), AbortWith(reason)) =>
      (match ServerAbort(s, reason) case (s', step) => (TheServer(s'), step))
    case _ => (p, AwaitPeer)
  }

  /** The confirm a reaction sealed: a client's with its issue request, a server's on establishing. */
  function SealedIn(aead: Aead, i: nat, p: Party, input: Input): seq<Entry>
    requires p.Valid()
  {
    var (p', step) := React(aead, p, input);
    if p'.TheClient? && input.FeedClient? && step.Send? && |step.messages| == 2 && step.messages[1].ConfirmC2s?
       && p'.client.session.Some? && p'.client.session.value.keys.Some?
    then [EntryFor(i, p'.client.session.value, step.messages[1].sealed)]
    else if p'.TheServer? && step.Established? && |step.outbox| == 1 && step.outbox[0].ConfirmS2c?
            && step.session.keys.Some?
    then [EntryFor(i, step.session, step.outbox[0].sealed)]
    else []
  }

  /** The session and bytes a party is about to open, if the input makes it open a confirm. */
  function Opening(p: Party, input: Input): Option<(SessionState, Direction, seq<byte>)> {
    match (p, input)
    case (TheClient(c), FeedClient(ConfirmS2c(_, _, _, _, sealed), _)) =>
      if c.session.Some? then Some((c.session.value, ServerToClient, sealed)) else None
    case (TheServer(s), FeedConfirm(ConfirmC2s(_, _, _, _, sealed))) =>
      if s.session.Some? then Some((s.session.value, ClientToServer, sealed)) else None
    case _ => None
  }

  function BytesOpened(p: Party, input: Input): seq<byte> {
    match Opening(p, input)
    case None => []
    case Some((_, _, sealed)) => sealed
  }

  function Advance(aead: Aead, w: World, i: nat, input: Input): World
    requires i < |w.parties| && w.parties[i].Valid()
  {
    var (p', step) := React(aead, w.parties[i], input);
    World(w.parties[i := p'], w.log + SealedIn(aead, i, w.parties[i], input),
          if step.Established? then w.established[i := Ending(step.session, BytesOpened(w.parties[i], input))]
          else w.established)
  }

  ghost predicate SealedBefore(log: seq<Entry>, key: Bytes32, nonce: seq<byte>, aad: seq<byte>, sealed: seq<byte>, text: seq<byte>) {
    exists k :: 0 <= k < |log| && log[k].key == key && log[k].nonce == nonce && log[k].aad == aad
                && log[k].sealed == sealed && log[k].plaintext == text
  }

  /** If the bytes about to be opened do open, they were sealed before under just that key, nonce and data. */
  ghost predicate NothingForged(aead: Aead, w: World, i: nat, input: Input)
    requires i < |w.parties|
  {
    match Opening(w.parties[i], input)
    case None => true
    case Some((s, d, sealed)) =>
      s.keys.Some? ==>
        (match OpenBytes(aead, s, ConfirmType(d), 0, sealed)
         case None => true
         case Some(text) =>
           SealedBefore(w.log, s.keys.value.For(d), RecordNonce(s.ctx, d, 0), BuildAad(s.ctx, ConfirmType(d), d, 0, 0),
                        sealed, text))
  }

  // ---- the invariant ----

  /** An entry was sealed by a party that still holds its context; a server that sealed has established. */
  ghost predicate EntryOk(w: World, e: Entry) {
    && e.owner < |w.parties| && Holds(w.parties[e.owner], e.ctx) && w.parties[e.owner].Settled()
    && e.aad == BuildAad(e.ctx, ConfirmType(e.ctx.role.SendDirection()), e.ctx.role.SendDirection(), 0, 0)
    && (e.ctx.role == Server ==>
          e.owner in w.established && w.established[e.owner].session.ctx == e.ctx
          && w.established[e.owner].session.keys.Some?
          && w.established[e.owner].session.keys.value.For(ServerToClient) == e.key)
  }

  /** Entry `k` is the accepted confirm, sealed by a peer for the same context under the key `s` receives with. */
  ghost predicate PeerEntry(w: World, s: SessionState, accepted: seq<byte>, k: nat) {
    && k < |w.log| && w.log[k].sealed == accepted && s.keys.Some? && w.log[k].key == s.keys.value.For(s.RecvDir())
    && w.log[k].ctx == s.ctx.(role := w.log[k].ctx.role) && w.log[k].ctx.role != s.ctx.role
  }

  ghost predicate EstablishedOk(w: World, i: nat)
    requires i in w.established
  {
    && i < |w.parties| && w.parties[i].Finished() && Holds(w.parties[i], w.established[i].session.ctx)
    && exists k: nat :: PeerEntry(w, w.established[i].session, w.established[i].accepted, k)
  }

  ghost predicate Inv(w: World) {
    && (forall i :: 0 <= i < |w.parties| ==> w.parties[i].Valid())
    && (forall k :: 0 <= k < |w.log| ==> EntryOk(w, w.log[k]))
    && (forall i :: i in w.established ==> EstablishedOk(w, i))
  }

  /** Once settled, a party's agreed segment and nonces never change again. */
  lemma SettledStays(aead: Aead, p: Party, input: Input)
    requires p.Valid()
    ensures var p' := React(aead, p, input).0;
            && p'.Valid() && p'.Role() == p.Role() && p'.BookId() == p.BookId()
            && (p.Settled() ==> p'.Settled() && p'.Agreed() == p.Agreed() && p'.Nonces() == p.Nonces())
  {
    hide SealConfirm, AcceptConfirm, IssuedInRow;
    if p.TheClient? && input.FeedClient? {
      ClientStaysValid(aead, p.client, input.message, input.answers);
    } else if p.TheServer? && input.FeedConfirm? {
      ServerStaysValid(aead, p.server, input.confirm);
    }
  }

  lemma SealKeepsSession(aead: Aead, s: SessionState, d: Direction)
    requires s.Valid()
    ensures var (s', r) := SealConfirm(aead, s, d);
            s'.Valid() && s'.ctx == s.ctx &&
            (r.Ok? ==> d == s.SendDir() && s.keys.Some? && (d == ClientToServer ==> r.value.ConfirmC2s?)
                       && (d == ServerToClient ==> r.value.ConfirmS2c?))
            && (r.Ok? ==> s'.keys == s.keys)
  {
    hide BuildAad, RecordNonce, Codec.EncodeConfirmBody;
  }

  lemma IssuingKeepsValid(aead: Aead, c: ClientState, answers: Answers)
    requires c.session.None? && c.agreed.Some? && c.serverNonce.Some?
    ensures var (c', step) := IssueAndConfirm(aead, c, answers);
            && ClientValid(c') && c'.agreed == c.agreed && c'.clientNonce == c.clientNonce
            && c'.serverNonce == c.serverNonce && c'.cfg == c.cfg && (c'.phase == ConfirmSent || c'.phase == ClientFailed)
            && !step.Established?
            && (step.Send? ==> |step.messages| == 2 && step.messages[1].ConfirmC2s? && c'.session.Some?
                               && c'.session.value.keys.Some?)
  {
    hide SealConfirm, IssuedInRow;
    var i := c.agreed.value;
    var issued := IssuedInRow(answers, (if c.cfg.localPointer < i then i - c.cfg.localPointer else 0) + 1);
    if issued.Ok? && c.clientNonce.Some? {
      SealKeepsSession(aead, NewSession(issued.value, ClientContext(c)), ClientToServer);
    }
  }

  lemma ClientStaysValid(aead: Aead, c: ClientState, m: Message, answers: Answers)
    requires ClientValid(c)
    ensures ClientValid(ClientHandle(aead, c, m, answers).0)
  {
    hide AcceptConfirm, IssueAndConfirm;
    if c.phase == HelloSent && m.Arbitrate? {
      var agreed := c.(serverNonce := Some(m.serverNonce), agreed := Some(m.serverPointer));
      IssuingKeepsValid(aead, agreed, answers);
      IssuingKeepsValid(aead, agreed.(wastedGap := Some((c.cfg.localPointer, m.serverPointer))), answers);
    }
  }

  lemma ServerStaysValid(aead: Aead, s: ServerState, m: Message)
    requires ServerValid(s)
    ensures ServerValid(ServerOnConfirm(aead, s, m).0)
  {
    hide SealConfirm, AcceptConfirm;
  }

  lemma FinishedStays(aead: Aead, p: Party, input: Input)
    requires p.Valid() && p.Finished()
    ensures React(aead, p, input).0.Finished() && !React(aead, p, input).1.Established?
    ensures SealedIn(aead, 0, p, input) == []
  {
    hide SealConfirm, AcceptConfirm, IssueAndConfirm;
  }

  /** What a reaction seals is sealed by the party as it stands afterwards. */
  lemma SealedEntryIsOwn(aead: Aead, i: nat, p: Party, input: Input)
    requires p.Valid()
    ensures var (p', step) := React(aead, p, input);
            forall e :: e in SealedIn(aead, i, p, input) ==>
              && e.owner == i && Holds(p', e.ctx) && p'.Settled()
              && e.aad == BuildAad(e.ctx, ConfirmType(e.ctx.role.SendDirection()), e.ctx.role.SendDirection(), 0, 0)
              && (e.ctx.role == Server ==>
                    step.Established? && step.session.ctx == e.ctx && step.session.keys.Some?
                    && step.session.keys.value.For(ServerToClient) == e.key)
  {
    hide SealConfirm, AcceptConfirm, IssueAndConfirm, BuildAad, RecordNonce, Codec.EncodeConfirmBody;
    if p.TheClient? && input.FeedClient? {
      ClientStaysValid(aead, p.client, input.message, input.answers);
      ClientSends(aead, p.client, input.message, input.answers);
    } else if p.TheServer? && input.FeedConfirm? {
      ServerEstablishes(aead, p.server, input.confirm);
    }
  }

  /** The AEAD was given just what an entry says. */
  predicate Given(aead: Aead, e: Entry) {
    e.sealed == aead.seal(e.key, e.nonce, e.aad, e.plaintext)
  }

  lemma SealConfirmGives(aead: Aead, s: SessionState, d: Direction)
    requires s.Valid()
    ensures var (s', r) := SealConfirm(aead, s, d);
            r.Ok? ==> (r.value.ConfirmC2s? || r.value.ConfirmS2c?) && s'.keys.Some? && s'.SendDir() == d
                      && Given(aead, EntryFor(0, s', r.value.sealed))
  {
    hide BuildAad, RecordNonce, Codec.EncodeConfirmBody;
  }

  lemma ClientGives(aead: Aead, c: ClientState, m: Message, answers: Answers)
    requires ClientValid(c)
    ensures var (c', step) := ClientHandle(aead, c, m, answers);
            step.Send? ==> |step.messages| == 2 && step.messages[1].ConfirmC2s? && c'.session.Some?
                           && c'.session.value.keys.Some?
                           && Given(aead, EntryFor(0, c'.session.value, step.messages[1].sealed))
  {
    hide SealConfirm, AcceptConfirm, IssuedInRow, Given, EntryFor;
    if c.phase == HelloSent && m.Arbitrate? {
      var agreed := c.(serverNonce := Some(m.serverNonce), agreed := Some(m.serverPointer));
      IssuingGives(aead, agreed, answers);
      IssuingGives(aead, agreed.(wastedGap := Some((c.cfg.localPointer, m.serverPointer))), answers);
    }
  }

  lemma IssuingGives(aead: Aead, c: ClientState, answers: Answers)
    requires c.session.None? && c.agreed.Some? && c.serverNonce.Some?
    ensures var (c', step) := IssueAndConfirm(aead, c, answers);
            step.Send? ==> |step.messages| == 2 && step.messages[1].ConfirmC2s? && c'.session.Some?
                           && c'.session.value.keys.Some?
                           && Given(aead, EntryFor(0, c'.session.value, step.messages[1].sealed))
  {
    hide SealConfirm, IssuedInRow, Given, EntryFor;
    var i := c.agreed.value;
    var issued := IssuedInRow(answers, (if c.cfg.localPointer < i then i - c.cfg.localPointer else 0) + 1);
    if issued.Ok? && c.clientNonce.Some? {
      SealKeepsSession(aead, NewSession(issued.value, ClientContext(c)), ClientToServer);
      SealConfirmGives(aead, NewSession(issued.value, ClientContext(c)), ClientToServer);
    }
  }

  lemma ServerGives(aead: Aead, s: ServerState, m: Message)
    requires ServerValid(s)
    ensures var (s', step) := ServerOnConfirm(aead, s, m);
            step.Established? && |step.outbox| == 1 && step.outbox[0].ConfirmS2c? && step.session.keys.Some? ==>
              Given(aead, EntryFor(0, step.session, step.outbox[0].sealed))
  {
    hide SealConfirm, AcceptConfirm, Given, EntryFor;
    if s.phase == ConfirmWait && m.ConfirmC2s? && s.session.Some? {
      var accepted := AcceptConfirm(aead, s.session.value, ClientToServer, m.segmentIndex, m.sessionNonce, m.epoch,
                                    m.seqNo, m.sealed);
      AcceptKeepsValid(aead, s.session.value, ClientToServer, m.segmentIndex, m.sessionNonce, m.epoch, m.seqNo, m.sealed);
      if accepted.Ok? {
        SealConfirmGives(aead, accepted.value, ServerToClient);
      }
    }
  }

  lemma SealedInIsGiven(aead: Aead, i: nat, p: Party, input: Input)
    requires p.Valid()
    ensures forall e <- SealedIn(aead, i, p, input) :: Given(aead, e)
  {
    hide SealConfirm, AcceptConfirm, IssueAndConfirm, ClientHandle, ServerOnConfirm, BuildAad, RecordNonce,
      Codec.EncodeConfirmBody;
    if p.TheClient? && input.FeedClient? {
      ClientGives(aead, p.client, input.message, input.answers);
    } else if p.TheServer? && input.FeedConfirm? {
      ServerGives(aead, p.server, input.confirm);
    }
  }

  lemma ClientSends(aead: Aead, c: ClientState, m: Message, answers: Answers)
    requires ClientValid(c)
    ensures var (c', step) := ClientHandle(aead, c, m, answers);
            step.Send? ==> c'.session.Some? && c'.phase == ConfirmSent
  {
    hide SealConfirm, AcceptConfirm, IssuedInRow;
  }

  /** A server establishes only by opening the client's confirm, and with the session it opened it in. */
  lemma ServerEstablishes(aead: Aead, s: ServerState, m: Message)
    requires ServerValid(s)
    ensures var (s', step) := ServerOnConfirm(aead, s, m);
            step.Established? ==>
              && s.session.Some? && m.ConfirmC2s? && ConfirmOpens(aead, s.session.value, ClientToServer, m.sealed)
              && step.session.ctx == s.session.value.ctx == ServerContext(s) && step.session.keys == s.session.value.keys
              && TheServer(s').Finished() && Holds(TheServer(s'), step.session.ctx)
  {
    hide SealConfirm, AcceptConfirm, BuildAad, RecordNonce;
    if s.phase == ConfirmWait && m.ConfirmC2s? && s.session.Some? {
      var accepted := AcceptConfirm(aead, s.session.value, ClientToServer, m.segmentIndex, m.sessionNonce, m.epoch,
                                    m.seqNo, m.sealed);
      AcceptKeepsValid(aead, s.session.value, ClientToServer, m.segmentIndex, m.sessionNonce, m.epoch, m.seqNo, m.sealed);
      if accepted.Ok? {
        SealKeepsSession(aead, accepted.value, ServerToClient);
      }
    }
  }

  lemma ClientEstablishes(aead: Aead, c: ClientState, m: Message, answers: Answers)
    requires ClientValid(c)
    ensures var (c', step) := ClientHandle(aead, c, m, answers);
            step.Established? ==>
              && c.session.Some? && m.ConfirmS2c? && ConfirmOpens(aead, c.session.value, ServerToClient, m.sealed)
              && step.session.ctx == c.session.value.ctx == ClientContext(c) && step.session.keys == c.session.value.keys
              && TheClient(c').Finished() && Holds(TheClient(c'), step.session.ctx)
  {
    hide SealConfirm, AcceptConfirm, IssueAndConfirm, BuildAad, RecordNonce;
    if c.phase == ConfirmSent && m.ConfirmS2c? && c.session.Some? {
      AcceptKeepsValid(aead, c.session.value, ServerToClient, m.segmentIndex, m.sessionNonce, m.epoch, m.seqNo, m.sealed);
    } else if c.phase == HelloSent && m.Arbitrate? {
      var agreed := c.(serverNonce := Some(m.serverNonce), agreed := Some(m.serverPointer));
      IssuingKeepsValid(aead, agreed, answers);
      IssuingKeepsValid(aead, agreed.(wastedGap := Some((c.cfg.localPointer, m.serverPointer))), answers);
    }
  }

  predicate ConfirmOpens(aead: Aead, s: SessionState, d: Direction, sealed: seq<byte>) {
    s.keys.Some? && s.RecvDir() == d && OpenBytes(aead, s, ConfirmType(d), 0, sealed).Some?
  }

  lemma EstablishingOpens(aead: Aead, p: Party, input: Input)
    requires p.Valid() && React(aead, p, input).1.Established?
    ensures var (p', step) := React(aead, p, input);
            && Opening(p, input).Some?
            && var (s, d, sealed) := Opening(p, input).value;
               && ConfirmOpens(aead, s, d, sealed) && step.session.ctx == s.ctx && step.session.keys == s.keys
               && p'.Finished() && Holds(p', s.ctx)
  {
    hide SealConfirm, AcceptConfirm, IssueAndConfirm, BuildAad, RecordNonce;
    if p.TheClient? && input.FeedClient? {
      ClientEstablishes(aead, p.client, input.message, input.answers);
    } else if p.TheServer? && input.FeedConfirm? {
      ServerEstablishes(aead, p.server, input.confirm);
    }
  }

  /** What opens was sealed before, and the associated data say by whom and for what. */
  lemma OpenedHasPeer(aead: Aead, w: World, i: nat, input: Input)
    requires Inv(w) && i < |w.parties| && NothingForged(aead, w, i, input)
    requires Opening(w.parties[i], input).Some?
    requires var (s, d, sealed) := Opening(w.parties[i], input).value; ConfirmOpens(aead, s, d, sealed)
    ensures var (s, _, sealed) := Opening(w.parties[i], input).value; exists k: nat :: PeerEntry(w, s, sealed, k)
  {
    hide BuildAad, RecordNonce;
    var (s, d, sealed) := Opening(w.parties[i], input).value;
    var text := OpenBytes(aead, s, ConfirmType(d), 0, sealed).value;
    var aad := BuildAad(s.ctx, ConfirmType(d), d, 0, 0);
    assert SealedBefore(w.log, s.keys.value.For(d), RecordNonce(s.ctx, d, 0), aad, sealed, text);
    var k :| 0 <= k < |w.log| && w.log[k].key == s.keys.value.For(d) && w.log[k].aad == aad && w.log[k].sealed == sealed;
    var e := w.log[k];
    assert EntryOk(w, e);
    var d' := e.ctx.role.SendDirection();
    AadInjective(s.ctx, ConfirmType(d), d, 0, 0, e.ctx, ConfirmType(d'), d', 0, 0);
    assert PeerEntry(w, s, sealed, k);
  }

  /** One party replaced by one that agrees with it on whatever was settled. */
  predicate KeepsParties(w: World, w': World) {
    && |w'.parties| == |w.parties| && w.log <= w'.log
    && forall k :: 0 <= k < |w.parties| ==> Keeps(w.parties[k], w'.parties[k])
  }

  predicate Keeps(p: Party, p': Party) {
    && p'.Valid() && p'.Role() == p.Role() && p'.BookId() == p.BookId()
    && (p.Settled() ==> p'.Settled() && p'.Agreed() == p.Agreed() && p'.Nonces() == p.Nonces())
    && (p.Finished() ==> p'.Finished())
  }

  lemma AdvanceKeepsParties(aead: Aead, w: World, i: nat, input: Input)
    requires Inv(w) && i < |w.parties|
    ensures var w' := Advance(aead, w, i, input);
            && KeepsParties(w, w')
            && forall j :: j in w.established ==> j in w'.established && w'.established[j] == w.established[j]
  {
    hide React, SealedIn, EntryOk;
    var p := w.parties[i];
    SettledStays(aead, p, input);
    if i in w.established {
      assert EstablishedOk(w, i);
      FinishedStays(aead, p, input);
    }
    if p.Finished() {
      FinishedStays(aead, p, input);
    }
  }

  lemma EntryStaysOk(w: World, w': World, e: Entry)
    requires EntryOk(w, e) && KeepsParties(w, w')
    requires forall j :: j in w.established ==> j in w'.established && w'.established[j] == w.established[j]
    ensures EntryOk(w', e)
  {
    hide BuildAad;
    assert Keeps(w.parties[e.owner], w'.parties[e.owner]);
  }

  lemma EstablishedStaysOk(w: World, w': World, j: nat)
    requires j in w.established && EstablishedOk(w, j) && KeepsParties(w, w')
    requires j in w'.established && w'.established[j] == w.established[j]
    ensures EstablishedOk(w', j)
  {
    assert Keeps(w.parties[j], w'.parties[j]);
    var ending := w.established[j];
    var k: nat :| PeerEntry(w, ending.session, ending.accepted, k);
    assert PeerEntry(w', ending.session, ending.accepted, k);
  }

  lemma AdvanceKeepsLog(aead: Aead, w: World, i: nat, input: Input)
    requires Inv(w) && i < |w.parties|
    ensures var w' := Advance(aead, w, i, input); forall k :: 0 <= k < |w'.log| ==> EntryOk(w', w'.log[k])
  {
    hide React, SealedIn, BuildAad, RecordNonce, Opening, EstablishedOk, Keeps;
    var w' := Advance(aead, w, i, input);
    AdvanceKeepsParties(aead, w, i, input);
    SealedEntryIsOwn(aead, i, w.parties[i], input);
    forall k | 0 <= k < |w'.log|
      ensures EntryOk(w', w'.log[k])
    {
      if k >= |w.log| {
        assert w'.log[k] in SealedIn(aead, i, w.parties[i], input);
      } else {
        EntryStaysOk(w, w', w.log[k]);
      }
    }
  }

  /** A party that establishes now accepted what a peer had sealed. */
  lemma NewEndingIsOk(aead: Aead, w: World, i: nat, input: Input)
    requires Inv(w) && i < |w.parties| && NothingForged(aead, w, i, input)
    requires React(aead, w.parties[i], input).1.Established?
    ensures EstablishedOk(Advance(aead, w, i, input), i)
  {
    hide React, SealedIn, BuildAad, RecordNonce, Opening, EntryOk, ConfirmOpens, NothingForged, Inv;
    InvParties(w);
    assert w.parties[i] in w.parties;
    var w' := Advance(aead, w, i, input);
    EstablishingOpens(aead, w.parties[i], input);
    OpenedHasPeer(aead, w, i, input);
    var (s, _, sealed) := Opening(w.parties[i], input).value;
    var k: nat :| PeerEntry(w, s, sealed, k);
    assert PeerEntry(w', w'.established[i].session, sealed, k);
  }

  lemma InvParties(w: World)
    requires Inv(w)
    ensures forall p <- w.parties :: p.Valid()
  {
  }

  lemma AdvanceKeepsInv(aead: Aead, w: World, i: nat, input: Input)
    requires Inv(w) && i < |w.parties| && NothingForged(aead, w, i, input)
    ensures Inv(Advance(aead, w, i, input))
  {
    hide React, SealedIn, EntryOk, EstablishedOk, NothingForged, BytesOpened;
    var w' := Advance(aead, w, i, input);
    AdvanceKeepsParties(aead, w, i, input);
    AdvanceKeepsLog(aead, w, i, input);
    if React(aead, w.parties[i], input).1.Established? {
      NewEndingIsOk(aead, w, i, input);
    }
    forall j | j in w'.established
      ensures EstablishedOk(w', j)
    {
      if j in w.established {
        EstablishedStaysOk(w, w', j);
      }
    }
    forall k | 0 <= k < |w'.parties|
      ensures w'.parties[k].Valid()
    {
      assert Keeps(w.parties[k], w'.parties[k]);
    }
  }

  // ---- runs ----

  /** Every input in turn reaches a party that exists and nothing is forged on the way. */
  ghost predicate Admissible(aead: Aead, w: World, inputs: seq<(nat, Input)>)
    decreases |inputs|
  {
    |inputs| == 0 ||
    (var (i, input) := inputs[0];
     i < |w.parties| && w.parties[i].Valid() && NothingForged(aead, w, i, input)
     && Admissible(aead, Advance(aead, w, i, input), inputs[1..]))
  }

  ghost function Final(aead: Aead, w: World, inputs: seq<(nat, Input)>): World
    requires Admissible(aead, w, inputs)
    decreases |inputs|
  {
    if |inputs| == 0 then w else Final(aead, Advance(aead, w, inputs[0].0, inputs[0].1), inputs[1..])
  }

  lemma {:induction false} FinalInv(aead: Aead, w: World, inputs: seq<(nat, Input)>)
    requires Inv(w) && Admissible(aead, w, inputs)
    ensures Inv(Final(aead, w, inputs))
    decreases |inputs|
  {
    hide Inv, Advance, NothingForged;
    if |inputs| > 0 {
      AdvanceKeepsInv(aead, w, inputs[0].0, inputs[0].1);
      FinalInv(aead, Advance(aead, w, inputs[0].0, inputs[0].1), inputs[1..]);
    }
  }

  // ---- the keys ----

  /** The body a party keeps when the input makes it draw, if all it asks for is granted. */
  function DrawnIn(p: Party, input: Input): Option<Bytes64> {
    match (p, input)
    case (TheClient(c), FeedClient(m, answers)) =>
      if ClientAsks(c, m) > 0 && IssuedInRow(answers, ClientAsks(c, m)).Ok?
      then Some(IssuedInRow(answers, ClientAsks(c, m)).value) else None
    case (TheServer(s), FeedIssue(m, answers)) =>
      if ServerAsks(s, m) > 0 && IssuedInRow(answers, 1).Ok? then Some(IssuedInRow(answers, 1).value) else None
    case _ => None
  }

  function DrawnAfter(drawn: map<nat, Bytes64>, i: nat, p: Party, input: Input): map<nat, Bytes64> {
    match DrawnIn(p, input)
    case None => drawn
    case Some(body) => drawn[i := body]
  }

  /** The segment each party last drew in a run. */
  ghost function AllDrawn(aead: Aead, w: World, inputs: seq<(nat, Input)>, drawn: map<nat, Bytes64>): map<nat, Bytes64>
    requires Admissible(aead, w, inputs)
    decreases |inputs|
  {
    if |inputs| == 0 then drawn
    else
      var (i, input) := inputs[0];
      AllDrawn(aead, Advance(aead, w, i, input), inputs[1..], DrawnAfter(drawn, i, w.parties[i], input))
  }

  /** The half of a segment that keys a direction. */
  function KeyIn(segment: Bytes64, d: Direction): Bytes32 {
    if d == ClientToServer then segment[0..32] else segment[32..64]
  }

  function SessionOf(p: Party): Option<SessionState> {
    if p.TheClient? then p.client.session else p.server.session
  }

  predicate PartyKeyed(p: Party, i: nat, drawn: map<nat, Bytes64>) {
    SessionOf(p).Some? && SessionOf(p).value.keys.Some? ==> i in drawn && KeyedBy(SessionOf(p).value, drawn[i])
  }

  predicate EntryKeyed(e: Entry, drawn: map<nat, Bytes64>) {
    e.owner in drawn && e.key == KeyIn(drawn[e.owner], e.ctx.role.SendDirection())
  }

  predicate EndingKeyed(w: World, i: nat, drawn: map<nat, Bytes64>)
    requires i in w.established
  {
    i in drawn && KeyedBy(w.established[i].session, drawn[i])
  }

  /** Every key in use is a half of the segment its holder drew. */
  predicate Keyed(w: World, drawn: map<nat, Bytes64>) {
    && (forall i :: 0 <= i < |w.parties| ==> PartyKeyed(w.parties[i], i, drawn))
    && (forall k :: 0 <= k < |w.log| ==> EntryKeyed(w.log[k], drawn))
    && (forall i :: i in w.established ==> EndingKeyed(w, i, drawn))
  }

  lemma IssuingIsKeyed(aead: Aead, c: ClientState, answers: Answers)
    requires c.session.None? && c.agreed.Some? && c.serverNonce.Some?
    ensures var (c', step) := IssueAndConfirm(aead, c, answers);
            var gap := if c.cfg.localPointer < c.agreed.value then c.agreed.value - c.cfg.localPointer else 0;
            c'.session.Some? ==> IssuedInRow(answers, gap + 1).Ok? && KeyedBy(c'.session.value, IssuedInRow(answers, gap + 1).value)
  {
    hide SealConfirm, IssuedInRow, KeyedBy;
    var i := c.agreed.value;
    var issued := IssuedInRow(answers, (if c.cfg.localPointer < i then i - c.cfg.localPointer else 0) + 1);
    if issued.Ok? && c.clientNonce.Some? {
      var fresh0 := NewSession(issued.value, ClientContext(c));
      SealKeepsSession(aead, fresh0, ClientToServer);
      NewIsKeyed(issued.value, ClientContext(c));
      SameKeysKeyed(fresh0, SealConfirm(aead, fresh0, ClientToServer).0, issued.value);
    }
  }

  lemma SameKeysKeyed(s: SessionState, s': SessionState, segment: Bytes64)
    requires KeyedBy(s, segment)
    ensures s'.keys == s.keys ==> KeyedBy(s', segment)
  {
  }

  lemma ClientIsKeyed(aead: Aead, c: ClientState, m: Message, answers: Answers)
    requires ClientValid(c)
    ensures var (c', step) := ClientHandle(aead, c, m, answers);
            var drawn := DrawnIn(TheClient(c), FeedClient(m, answers));
            && (c'.session.Some? ==> if c.session.Some? then drawn.None? && c'.session == c.session
                                     else drawn.Some? && KeyedBy(c'.session.value, drawn.value))
  {
    hide SealConfirm, AcceptConfirm, IssueAndConfirm, IssuedInRow, KeyedBy;
    if c.phase == HelloSent && m.Arbitrate? {
      var agreed := c.(serverNonce := Some(m.serverNonce), agreed := Some(m.serverPointer));
      IssuingIsKeyed(aead, agreed, answers);
      IssuingIsKeyed(aead, agreed.(wastedGap := Some((c.cfg.localPointer, m.serverPointer))), answers);
    }
  }

  /** A reaction keys the party, what it seals and what it establishes with the segment it drew last. */
  lemma ReactIsKeyed(aead: Aead, i: nat, p: Party, input: Input, drawn: map<nat, Bytes64>)
    requires p.Valid() && PartyKeyed(p, i, drawn)
    ensures var (p', step) := React(aead, p, input);
            var drawn' := DrawnAfter(drawn, i, p, input);
            && PartyKeyed(p', i, drawn')
            && (step.Established? && step.session.keys.Some? ==> i in drawn' && KeyedBy(step.session, drawn'[i]))
            && forall e <- SealedIn(aead, i, p, input) :: EntryKeyed(e, drawn')
  {
    hide SealConfirm, AcceptConfirm, IssueAndConfirm, ClientHandle, ServerOnConfirm, IssuedInRow, KeyedBy, BuildAad, RecordNonce,
      Codec.EncodeConfirmBody;
    if p.TheClient? && input.FeedClient? {
      ClientKeysAll(aead, i, p.client, input.message, input.answers, drawn);
    } else if p.TheServer? && input.FeedConfirm? {
      ServerKeysAll(aead, i, p.server, input.confirm, drawn);
    } else if p.TheServer? && input.FeedIssue? && IssuedInRow(input.issueAnswers, 1).Ok?
              && p.server.agreed.Some? && p.server.clientNonce.Some? && p.server.serverNonce.Some? {
      NewIsKeyed(IssuedInRow(input.issueAnswers, 1).value, ServerContext(p.server));
    }
  }

  lemma ClientKeysAll(aead: Aead, i: nat, c: ClientState, m: Message, answers: Answers, drawn: map<nat, Bytes64>)
    requires ClientValid(c) && PartyKeyed(TheClient(c), i, drawn)
    ensures var p, input := TheClient(c), FeedClient(m, answers);
            var (p', step) := React(aead, p, input);
            var drawn' := DrawnAfter(drawn, i, p, input);
            && PartyKeyed(p', i, drawn')
            && (step.Established? && step.session.keys.Some? ==> i in drawn' && KeyedBy(step.session, drawn'[i]))
            && forall e <- SealedIn(aead, i, p, input) :: EntryKeyed(e, drawn')
  {
    hide SealConfirm, AcceptConfirm, IssueAndConfirm, ClientHandle, IssuedInRow, KeyedBy, BuildAad, RecordNonce, Codec.EncodeConfirmBody;
    ClientIsKeyed(aead, c, m, answers);
    ClientStaysValid(aead, c, m, answers);
    ClientSends(aead, c, m, answers);
    ClientEstablishes(aead, c, m, answers);
    EstablishingDrawsNothing(aead, c, m, answers);
    var (c', step) := ClientHandle(aead, c, m, answers);
    var drawn' := DrawnAfter(drawn, i, TheClient(c), FeedClient(m, answers));
    if step.Established? && step.session.keys.Some? {
      SameKeysKeyed(c.session.value, step.session, drawn[i]);
    }
    if step.Send? && c'.session.value.keys.Some? {
      KeyedKeys(c'.session.value, drawn'[i]);
    }
  }

  lemma KeyedKeys(s: SessionState, segment: Bytes64)
    requires KeyedBy(s, segment)
    ensures s.keys.Some? && forall d :: s.keys.value.For(d) == KeyIn(segment, d)
  {
  }

  lemma EstablishingDrawsNothing(aead: Aead, c: ClientState, m: Message, answers: Answers)
    requires ClientValid(c)
    ensures ClientHandle(aead, c, m, answers).1.Established? ==> DrawnIn(TheClient(c), FeedClient(m, answers)).None?
    ensures ClientHandle(aead, c, m, answers).1.Send? ==> c.session.None?
  {
    hide SealConfirm, AcceptConfirm, IssueAndConfirm, IssuedInRow;
    if c.phase == HelloSent && m.Arbitrate? {
      var agreed := c.(serverNonce := Some(m.serverNonce), agreed := Some(m.serverPointer));
      IssuingKeepsValid(aead, agreed, answers);
      IssuingKeepsValid(aead, agreed.(wastedGap := Some((c.cfg.localPointer, m.serverPointer))), answers);
    }
  }

  lemma ServerKeysAll(aead: Aead, i: nat, s: ServerState, m: Message, drawn: map<nat, Bytes64>)
    requires ServerValid(s) && PartyKeyed(TheServer(s), i, drawn)
    ensures var p, input := TheServer(s), FeedConfirm(m);
            var (p', step) := React(aead, p, input);
            && PartyKeyed(p', i, drawn)
            && (step.Established? && step.session.keys.Some? ==> i in drawn && KeyedBy(step.session, drawn[i]))
            && forall e <- SealedIn(aead, i, p, input) :: EntryKeyed(e, drawn)
  {
    hide SealConfirm, AcceptConfirm, KeyedBy, BuildAad, RecordNonce, Codec.EncodeConfirmBody;
    ServerEstablishes(aead, s, m);
    var (s', step) := ServerOnConfirm(aead, s, m);
    if step.Established? && step.session.keys.Some? {
      SameKeysKeyed(s.session.value, step.session, drawn[i]);
      KeyedKeys(step.session, drawn[i]);
    }
  }

  /** A party whose key is in the log or in a session it ended with draws no more. */
  lemma SettledDrawsNothing(w: World, i: nat, input: Input)
    requires Inv(w) && i < |w.parties|
    requires i in w.established || exists k :: 0 <= k < |w.log| && w.log[k].owner == i
    ensures DrawnIn(w.parties[i], input).None?
  {
    hide DrawnIn, BuildAad;
    DrawsNoMore(w.parties[i], input);
    if i in w.established {
      assert EstablishedOk(w, i);
    } else {
      var k :| 0 <= k < |w.log| && w.log[k].owner == i;
      assert EntryOk(w, w.log[k]);
    }
  }

  lemma DrawsNoMore(p: Party, input: Input)
    requires p.Valid()
    ensures p.Finished() || (p.TheClient? && p.Settled()) ==> DrawnIn(p, input).None?
  {
    hide IssuedInRow;
  }

  lemma AdvanceKeepsKeyed(aead: Aead, w: World, i: nat, input: Input, drawn: map<nat, Bytes64>)
    requires Inv(w) && Keyed(w, drawn) && i < |w.parties| && NothingForged(aead, w, i, input)
    ensures Keyed(Advance(aead, w, i, input), DrawnAfter(drawn, i, w.parties[i], input))
  {
    hide React, SealedIn, DrawnIn, PartyKeyed, EntryOk, EstablishedOk, NothingForged, BytesOpened, KeyedBy, KeyIn, Inv;
    InvParties(w);
    assert w.parties[i] in w.parties;
    assert PartyKeyed(w.parties[i], i, drawn);
    ReactIsKeyed(aead, i, w.parties[i], input, drawn);
    var w' := Advance(aead, w, i, input);
    var drawn' := DrawnAfter(drawn, i, w.parties[i], input);
    forall j | 0 <= j < |w'.parties|
      ensures PartyKeyed(w'.parties[j], j, drawn')
    {
      if j != i {
        OthersStayKeyed(w.parties[j], j, drawn, drawn');
      }
    }
    forall k | 0 <= k < |w'.log|
      ensures EntryKeyed(w'.log[k], drawn')
    {
      if k < |w.log| {
        assert EntryKeyed(w.log[k], drawn);
        if w.log[k].owner == i {
          SettledDrawsNothing(w, i, input);
        }
      } else {
        assert w'.log[k] in SealedIn(aead, i, w.parties[i], input);
      }
    }
    if React(aead, w.parties[i], input).1.Established? {
      EstablishedHasKeys(aead, w, i, input);
    }
    forall j | j in w'.established
      ensures EndingKeyed(w', j, drawn')
    {
      if j != i || !React(aead, w.parties[i], input).1.Established? {
        assert EndingKeyed(w, j, drawn);
        if j == i {
          SettledDrawsNothing(w, i, input);
        }
      }
    }
  }

  lemma OthersStayKeyed(p: Party, j: nat, drawn: map<nat, Bytes64>, drawn': map<nat, Bytes64>)
    requires PartyKeyed(p, j, drawn) && (j in drawn ==> j in drawn' && drawn'[j] == drawn[j])
    ensures PartyKeyed(p, j, drawn')
  {
  }

  lemma EstablishedHasKeys(aead: Aead, w: World, i: nat, input: Input)
    requires Inv(w) && i < |w.parties| && NothingForged(aead, w, i, input)
    requires w.parties[i].Valid() && React(aead, w.parties[i], input).1.Established?
    ensures React(aead, w.parties[i], input).1.session.keys.Some?
  {
    hide React, SealedIn, OpenBytes, NothingForged, Inv;
    EstablishingOpens(aead, w.parties[i], input);
  }

  lemma {:induction false} FinalKeyed(aead: Aead, w: World, inputs: seq<(nat, Input)>, drawn: map<nat, Bytes64>)
    requires Inv(w) && Keyed(w, drawn) && Admissible(aead, w, inputs)
    ensures Keyed(Final(aead, w, inputs), AllDrawn(aead, w, inputs, drawn))
    decreases |inputs|
  {
    hide Inv, Keyed, Advance, NothingForged, DrawnAfter;
    if |inputs| > 0 {
      var (i, input) := inputs[0];
      AdvanceKeepsInv(aead, w, i, input);
      AdvanceKeepsKeyed(aead, w, i, input, drawn);
      FinalKeyed(aead, Advance(aead, w, i, input), inputs[1..], DrawnAfter(drawn, i, w.parties[i], input));
    }
  }

  /** Machines just built, nothing sealed. */
  ghost predicate Fresh(w: World) {
    && w.log == [] && w.established == map[]
    && forall i :: 0 <= i < |w.parties| ==>
         (match w.parties[i]
          case TheClient(c) => c == NewClient(c.cfg)
          case TheServer(s) => s == NewServer(s.cfg))
  }

  /** The log is a log of what the AEAD was given, in every run. */
  lemma {:induction false} LogIsWhatWasSealed(aead: Aead, w: World, inputs: seq<(nat, Input)>)
    requires Admissible(aead, w, inputs) && forall e <- w.log :: Given(aead, e)
    ensures forall e <- Final(aead, w, inputs).log :: Given(aead, e)
    decreases |inputs|
  {
    hide React, SealedIn, NothingForged, Given;
    if |inputs| > 0 {
      SealedInIsGiven(aead, inputs[0].0, w.parties[inputs[0].0], inputs[0].1);
      LogIsWhatWasSealed(aead, Advance(aead, w, inputs[0].0, inputs[0].1), inputs[1..]);
    }
  }

  /** `j` is a party of the other role that agrees with `i` on book, segment and both nonces. */
  predicate Peers(w: World, i: nat, j: nat) {
    && i < |w.parties| && j < |w.parties| && w.parties[i].Role() != w.parties[j].Role()
    && w.parties[i].BookId() == w.parties[j].BookId() && w.parties[i].Agreed() == w.parties[j].Agreed()
    && w.parties[i].Nonces() == w.parties[j].Nonces()
  }

  /** `j` sealed the very confirm `i` accepted, under the key with which `i` receives. */
  predicate ConfirmedBy(w: World, i: nat, j: nat, k: nat)
    requires i in w.established && w.established[i].session.keys.Some?
  {
    var s := w.established[i].session;
    && k < |w.log| && w.log[k].owner == j && w.log[k].key == s.keys.value.For(s.RecvDir())
    && w.log[k].sealed == w.established[i].accepted
  }

  /** The party drew the segment that keys the session it ended with, one half for each direction. */
  predicate KeyedEnd(w: World, i: nat, drawn: map<nat, Bytes64>) {
    i in w.established && i in drawn && KeyedBy(w.established[i].session, drawn[i])
  }

  /**
   * Agreement: in any run of any machines in which nothing is forged, every party that established a session holds as
   * keys the two halves of the segment it drew, and has a peer of the other role with the same book, segment number and
   * nonces. The peer sealed the confirm the party accepted, under the very key the party receives with, and that key is
   * the same half of the segment the peer drew; the peer of an established client has itself established.
   */
  lemma EstablishedHavePeers(aead: Aead, w: World, inputs: seq<(nat, Input)>, i: nat)
    requires Fresh(w) && Admissible(aead, w, inputs) && i in Final(aead, w, inputs).established
    ensures var w' := Final(aead, w, inputs);
            var drawn := AllDrawn(aead, w, inputs, map[]);
            && KeyedEnd(w', i, drawn)
            && exists j: nat, k: nat :: Peers(w', i, j) && ConfirmedBy(w', i, j, k)
                              && j in drawn && SameHalf(w'.parties[j].Role(), drawn[j], drawn[i])
                              && (w'.parties[j].Role() == Server ==> KeyedEnd(w', j, drawn))
  {
    hide *;
    FreshInv(w);
    FreshIsKeyed(w);
    FinalInv(aead, w, inputs);
    FinalKeyed(aead, w, inputs, map[]);
    var w', drawn := Final(aead, w, inputs), AllDrawn(aead, w, inputs, map[]);
    var j, k := EstablishedHasPeer(w', i);
    PeersExist(w', i, j);
    PeerDrewTheSame(w', i, j, k, drawn);
  }

  lemma PeersExist(w: World, i: nat, j: nat)
    requires Peers(w, i, j)
    ensures i < |w.parties| && j < |w.parties|
  {
  }

  /** Two segments agree in the half that keys what `sender` sends. */
  predicate SameHalf(sender: Role, x: Bytes64, y: Bytes64) {
    if sender == Client then x[0..32] == y[0..32] else x[32..64] == y[32..64]
  }

  lemma FreshInv(w: World)
    requires Fresh(w)
    ensures Inv(w)
  {
  }

  lemma FreshIsKeyed(w: World)
    requires Fresh(w)
    ensures Keyed(w, map[])
  {
  }

  lemma EstablishedHasPeer(w: World, i: nat) returns (j: nat, k: nat)
    requires Inv(w) && i in w.established
    ensures w.established[i].session.keys.Some?
    ensures Peers(w, i, j) && ConfirmedBy(w, i, j, k) && (w.parties[j].Role() == Server ==> j in w.established)
    ensures w.log[k].ctx.role == w.parties[j].Role() && w.established[i].session.RecvDir() == w.parties[j].Role().SendDirection()
  {
    hide BuildAad, RecordNonce;
    assert EstablishedOk(w, i);
    k :| PeerEntry(w, w.established[i].session, w.established[i].accepted, k);
    j := w.log[k].owner;
    assert EntryOk(w, w.log[k]);
  }

  lemma PeerDrewTheSame(w: World, i: nat, j: nat, k: nat, drawn: map<nat, Bytes64>)
    requires Keyed(w, drawn) && i in w.established && w.established[i].session.keys.Some?
    requires ConfirmedBy(w, i, j, k) && i < |w.parties| && j < |w.parties| && w.log[k].ctx.role == w.parties[j].Role()
    requires w.established[i].session.RecvDir() == w.parties[j].Role().SendDirection()
    ensures KeyedEnd(w, i, drawn) && j in drawn && SameHalf(w.parties[j].Role(), drawn[j], drawn[i])
    ensures j in w.established ==> KeyedEnd(w, j, drawn)
  {
    assert EndingKeyed(w, i, drawn);
    assert EntryKeyed(w.log[k], drawn);
    if j in w.established {
      assert EndingKeyed(w, j, drawn);
    }
  }
}
