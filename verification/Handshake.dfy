/**
 * The handshake objects. They update their phase, nonces, agreed pointer and session in place as
 * `HandshakeSpec.dfy` says, and draw segments from the crash-safe allocator.
 */
module Handshake {
  import opened Bytes
  import opened Types
  import opened Message
  import opened SessionSpec
  import opened HandshakeSpec
  import AllocatorRuns
  import Allocator
  import Codec
  import Session

  /** Seals a confirm on a live session. */
  method SealConfirmOn(session: Session.Session, d: Direction) returns (r: Result<Message, HandshakeError>)
    requires session.Valid()
    modifies session
    ensures session.Valid() && (session.Value(), r) == SealConfirm(session.aead, old(session.Value()), d)
  {
    hide BuildAad, RecordNonce, Codec.EncodeConfirmBody;
    var ctx := session.ctx;
    var plain := Codec.EncodeConfirmBody(ConfirmFor(ctx, d));
    var record := session.Seal(ConfirmType(d), plain);
    if record.Err? {
      return Err(SessionSealError(record.error));
    }
    var zeta := ctx.SessionNonce();
    r := Ok(if d == ClientToServer then ConfirmC2s(ctx.segment, zeta, 0, record.value.sequence, record.value.sealed)
            else ConfirmS2c(ctx.segment, zeta, 0, record.value.sequence, record.value.sealed));
  }

  /** Checks a confirm against a live session; any refusal leaves the session without keys. */
  method AcceptConfirmOn(session: Session.Session, d: Direction, segment: u64, nonce: Bytes16, epoch: u32, n: u64,
                         sealed: Sealed) returns (error: Option<HandshakeError>)
    requires session.Valid()
    modifies session
    ensures session.Valid()
    ensures var r := AcceptConfirm(session.aead, old(session.Value()), d, segment, nonce, epoch, n, sealed);
            if error == None then r == Ok(session.Value()) else r == Err(error.value) && session.keys == None
  {
    hide BuildAad, RecordNonce, Codec.DecodeConfirmBody;
    error := VerifyConfirmOuter(segment, nonce, epoch, n, session.ctx);
    if error.Some? {
      session.CloseNormally();
      return;
    }
    var payload := session.Open(ConfirmType(d), n, sealed);
    if payload.Err? {
      return Some(SessionOpenError(payload.error));
    }
    var body := Codec.DecodeConfirmBody(payload.value);
    if body.Err? {
      session.CloseNormally();
      return Some(Violation(body.error));
    }
    error := VerifyConfirmBody(body.value, ConfirmFor(session.ctx, d));
    if error.Some? {
      session.CloseNormally();
    }
  }

  /** Answers given by an allocator that stood at `base`: each success is the body of the next segment. */
  ghost predicate FromBook(answers: Answers, book: seq<Bytes64>, base: nat) {
    forall k :: 0 <= k < |answers| && answers[k].Ok? ==> base + k < |book| && answers[k].value == book[base + k]
  }

  /**
   * A row of at most `asked` draws was made on the allocator and answered so: exactly the segments drawn were handed
   * out, from its old pointer on; all of them if nothing stands in the way, and then it stands past them; and without a
   * draw it was not touched.
   */
  twostate predicate Drew(issuer: Allocator.TransactionCore, asked: nat, new answers: Answers)
    requires old(issuer.Valid()) && issuer.Valid()
    reads issuer, issuer.media
  {
    && RowAnswers(answers, asked) && FromBook(answers, issuer.reader.book, old(issuer.current.next))
    && issuer.Handed() == old(issuer.Handed())
                          + AllocatorRuns.Range(old(issuer.current.next), old(issuer.current.next) + Drawn(answers))
    && (Drawn(answers) == asked ==> issuer.current.next == old(issuer.current.next) + asked)
    && (old(issuer.CanIssue(asked)) ==> Drawn(answers) == asked)
    && (answers == [] ==> unchanged(issuer) && unchanged(issuer.media))
  }

  /** One issue, as far as the handshake is concerned. */
  method IssueOne(issuer: Allocator.TransactionCore) returns (r: Result<Bytes64, IssueError>)
    requires issuer.Valid()
    modifies issuer, issuer.media
    ensures issuer.Valid()
    ensures r.Ok? ==> old(issuer.current.next) < |issuer.reader.book| && r.value == issuer.reader.book[old(issuer.current.next)]
                      && issuer.current.next == old(issuer.current.next) + 1
                      && issuer.Handed() == old(issuer.Handed()) + [old(issuer.current.next)]
    ensures r.Err? ==> issuer.Handed() == old(issuer.Handed())
    ensures forall n: nat :: n > 0 && old(issuer.CanIssue(n)) ==> r.Ok? && issuer.CanIssue(n - 1)
  {
    hide AllocatorRuns.Run, AllocatorRuns.Inv, AllocatorRuns.Next, AllocatorRuns.Everywhere;
    r := issuer.Issue();
  }

  lemma RangeGrows(base: nat, n: nat)
    ensures AllocatorRuns.Range(base, base) == []
    ensures AllocatorRuns.Range(base, base + n) + [base + n] == AllocatorRuns.Range(base, base + n + 1)
  {
  }

  lemma HandedGrows(handed: seq<nat>, base: nat, n: nat)
    ensures (handed + AllocatorRuns.Range(base, base + n)) + [base + n] == handed + AllocatorRuns.Range(base, base + n + 1)
  {
    hide AllocatorRuns.Range;
    RangeGrows(base, n);
  }

  lemma FromBookGrows(answers: Answers, r: Result<Bytes64, IssueError>, book: seq<Bytes64>, base: nat)
    ensures FromBook([], book, base)
    ensures FromBook(answers, book, base) && (r.Ok? ==> base + |answers| < |book| && r.value == book[base + |answers|]) ==>
              FromBook(answers + [r], book, base)
  {
  }

  /** Draws and drops `gap` segments; stops at the first failure. */
  method BurnGap(issuer: Allocator.TransactionCore, gap: nat)
    returns (failure: Option<IssueError>, ghost answers: Answers)
    requires issuer.Valid()
    modifies issuer, issuer.media
    ensures issuer.Valid() && FromBook(answers, issuer.reader.book, old(issuer.current.next))
    ensures issuer.Handed() == old(issuer.Handed())
              + AllocatorRuns.Range(old(issuer.current.next), old(issuer.current.next) + Drawn(answers))
    ensures forall n: nat :: n >= gap && old(issuer.CanIssue(n)) ==> failure.None? && issuer.CanIssue(n - gap)
    ensures failure.None? ==>
      |answers| == Drawn(answers) == gap && issuer.current.next == old(issuer.current.next) + gap
      && forall k :: 0 <= k < gap ==> answers[k].Ok?
    ensures failure.Some? ==>
      0 < |answers| <= gap && answers[|answers| - 1] == Err(failure.value)
      && forall k :: 0 <= k < |answers| - 1 ==> answers[k].Ok?
  {
    hide AllocatorRuns.Run, AllocatorRuns.Inv, AllocatorRuns.Next, AllocatorRuns.Range, FromBook;
    answers := [];
    ghost var base := issuer.current.next;
    ghost var handed := issuer.Handed();
    RangeGrows(base, 0);
    FromBookGrows(answers, Err(IssueError.Io), issuer.reader.book, base);
    for i := 0 to gap
      invariant issuer.Valid() && |answers| == i && issuer.current.next == base + i
      invariant issuer.Handed() == handed + AllocatorRuns.Range(base, base + i)
      invariant forall k :: 0 <= k < |answers| ==> answers[k].Ok?
      invariant FromBook(answers, issuer.reader.book, base)
      invariant forall n: nat :: n >= gap && old(issuer.CanIssue(n)) ==> issuer.CanIssue(n - i)
    {
      HandedGrows(handed, base, i);
      var wasted := IssueOne(issuer);
      FromBookGrows(answers, wasted, issuer.reader.book, base);
      answers := answers + [wasted];
      if wasted.Err? {
        return Some(wasted.error), answers;
      }
    }
    failure := None;
  }

  /** A gap burnt and then one segment kept, or the first failure on the way. */
  method IssueRow(issuer: Allocator.TransactionCore, count: nat)
    returns (r: Result<Bytes64, IssueError>, ghost answers: Answers)
    requires issuer.Valid() && count > 0
    modifies issuer, issuer.media
    ensures issuer.Valid() && r == IssuedInRow(answers, count) && answers != []
    ensures Drew(issuer, count, answers) && (r.Ok? <==> Drawn(answers) == count)
    ensures r.Ok? ==> old(issuer.current.next) + count <= |issuer.reader.book|
                      && r.value == issuer.reader.book[old(issuer.current.next) + count - 1]
  {
    hide AllocatorRuns.Run, AllocatorRuns.Inv, AllocatorRuns.Next, AllocatorRuns.Range, IssuedInRow, FromBook;
    var failure;
    failure, answers := BurnGap(issuer, count - 1);
    if failure.Some? {
      r := Err(failure.value);
      RowOutcome(answers, count, []);
      return;
    }
    HandedGrows(old(issuer.Handed()), old(issuer.current.next), count - 1);
    r := IssueOne(issuer);
    FromBookGrows(answers, r, issuer.reader.book, old(issuer.current.next));
    answers := answers + [r];
    RowOutcome(answers, count, []);
  }

  twostate lemma NothingDrawn(issuer: Allocator.TransactionCore)
    requires old(issuer.Valid()) && unchanged(issuer) && unchanged(issuer.media)
    ensures issuer.Valid() && Drew(issuer, 0, []) && Drawn([]) == 0
  {
  }

  method DrawOne(issuer: Allocator.TransactionCore) returns (r: Result<Bytes64, IssueError>)
    requires issuer.Valid()
    modifies issuer, issuer.media
    ensures issuer.Valid() && Drew(issuer, 1, [r]) && IssuedInRow([r], 1) == r && Drawn([r]) == if r.Ok? then 1 else 0
    ensures r.Ok? ==> old(issuer.current.next) < |issuer.reader.book| && r.value == issuer.reader.book[old(issuer.current.next)]
  {
    hide AllocatorRuns.Run, AllocatorRuns.Inv, AllocatorRuns.Next, AllocatorRuns.Range;
    RangeGrows(issuer.current.next, 0);
    r := IssueOne(issuer);
  }

  class ClientHandshake {
    const cfg: Config
    const aead: Aead
    var phase: ClientPhase
    var clientNonce: Option<Bytes16>
    var serverNonce: Option<Bytes16>
    var agreed: Option<u64>
    var session: Session.Session?
    var wastedGap: Option<(u64, u64)>

    ghost function Repr(): set<object>
      reads this
    {
      {this} + if session == null then {} else {session}
    }

    ghost function Value(): ClientState
      reads this, Repr()
    {
      ClientState(cfg, phase, clientNonce, serverNonce, agreed, if session == null then None else Some(session.Value()),
                  wastedGap)
    }

    ghost predicate Valid()
      reads this, Repr()
    {
      (session != null ==> session.Valid() && session.aead == aead) && ClientValid(Value())
    }

    constructor (cfg: Config, aead: Aead)
      ensures Valid() && Value() == NewClient(cfg) && this.aead == aead && Repr() == {this}
    {
      this.cfg, this.aead := cfg, aead;
      phase, clientNonce, serverNonce, agreed, session, wastedGap := ClientIdle, None, None, None, null, None;
    }

    /** Keys gone, session dropped. */
    method BurnSession()
      requires session != null ==> session.Valid()
      modifies Repr()
      ensures session == null && phase == old(phase) && clientNonce == old(clientNonce)
      ensures serverNonce == old(serverNonce) && agreed == old(agreed) && wastedGap == old(wastedGap)
    {
      if session != null {
        session.CloseNormally();
        session := null;
      }
    }

    method Start(nonce: Option<Bytes16>) returns (r: Result<Message, HandshakeError>)
      requires Valid()
      modifies this
      ensures Valid() && (Value(), r) == ClientStart(old(Value()), nonce)
    {
      if phase != ClientIdle {
        phase := ClientFailed;
        return Err(Violation(BadOrder));
      }
      if nonce.None? {
        return Err(Csprng);
      }
      clientNonce := nonce;
      phase := HelloSent;
      r := Ok(Hello(cfg.bookId, nonce.value, cfg.localPointer, 0));
    }

    method FailOrder() returns (step: Step)
      requires Valid()
      modifies Repr()
      ensures Valid() && (Value(), step) == ClientOrderViolation(old(Value()))
    {
      BurnSession();
      phase := ClientFailed;
      step := StepFailed(Violation(BadOrder));
    }

    /** On success the established session is handed over in `held`. */
    method Handle(m: Message, issuer: Allocator.TransactionCore)
      returns (step: Step, held: Session.Session?, ghost answers: Answers)
      requires Valid() && issuer.Valid() && Repr() !! {issuer, issuer.media}
      modifies Repr(), issuer, issuer.media
      ensures Valid() && issuer.Valid() && (Value(), step) == ClientHandle(aead, old(Value()), m, answers)
      ensures Drew(issuer, ClientAsks(old(Value()), m), answers)
      ensures step.Send? ==> Drawn(answers) == ClientAsks(old(Value()), m) > 0
      ensures step.Send? ==> old(issuer.current.next) + Drawn(answers) <= |issuer.reader.book| && session != null &&
                             KeyedBy(session.Value(), issuer.reader.book[old(issuer.current.next) + Drawn(answers) - 1])
      ensures step.Established? ==> held != null && held.Valid() && held.Value() == step.session
    {
      hide Drew, HandshakeSpec.ClientOnArbitrate, ClientOnConfirm, AllocatorRuns.Run, AllocatorRuns.Inv, AllocatorRuns.Next;
      answers, held := [], null;
      NothingDrawn(issuer);
      if phase == HelloSent && m.Arbitrate? {
        step, answers := OnArbitrate(m.serverNonce, m.serverPointer, m.result, issuer);
      } else if phase == ConfirmSent && m.ConfirmS2c? {
        step, held := OnConfirmS2c(m.segmentIndex, m.sessionNonce, m.epoch, m.seqNo, m.sealed);
      } else {
        step := FailOrder();
      }
    }

    method RejectPointerCombination() returns (step: Step)
      modifies this`phase
      ensures phase == ClientFailed && step == StepFailed(Violation(IssuePointerMismatch))
    {
      phase := ClientFailed;
      step := StepFailed(Violation(IssuePointerMismatch));
    }

    method OnArbitrate(nonce: Bytes16, sp: u64, result: ArbitrateResult, issuer: Allocator.TransactionCore)
      returns (step: Step, ghost answers: Answers)
      requires Valid() && phase == HelloSent && issuer.Valid() && Repr() !! {issuer, issuer.media}
      modifies Repr(), issuer, issuer.media
      ensures Valid() && issuer.Valid()
      ensures (Value(), step) == ClientOnArbitrate(aead, old(Value()), nonce, sp, result, answers)
      ensures Drew(issuer, ClientAsks(old(Value()), Arbitrate(nonce, sp, result)), answers) && !step.Established?
      ensures step.Send? ==> Drawn(answers) == ClientAsks(old(Value()), Arbitrate(nonce, sp, result)) > 0
      ensures step.Send? ==> old(issuer.current.next) + Drawn(answers) <= |issuer.reader.book| && session != null &&
                             KeyedBy(session.Value(), issuer.reader.book[old(issuer.current.next) + Drawn(answers) - 1])
    {
      hide HandshakeSpec.IssueAndConfirm, AllocatorRuns.Run, AllocatorRuns.Inv, AllocatorRuns.Next, AllocatorRuns.Range, Drew;
      NothingDrawn(issuer);
      answers := [];
      var cp := cfg.localPointer;
      match result {
        case BookMismatch =>
          phase := ClientFailed;
          step := StepFailed(WrongBook);
        case Exhausted =>
          if sp != cfg.segmentCount {
            step := RejectPointerCombination();
          } else {
            phase := ClientFailed;
            step := StepFailed(OutOfSegments(sp));
          }
        case ClientAhead =>
          if sp >= cp {
            step := RejectPointerCombination();
          } else {
            phase := AheadRecovery;
            step := StepFailed(ClientIsAhead(cp, sp));
          }
        case ResultOk =>
          if sp != cp {
            step := RejectPointerCombination();
          } else {
            step, answers := Agree(nonce, sp, wastedGap, issuer);
          }
        case ServerAhead =>
          if sp <= cp {
            step := RejectPointerCombination();
          } else {
            step, answers := Agree(nonce, sp, Some((cp, sp)), issuer);
          }
      }
    }

    /** Fixes the agreed segment and the server's nonce, and goes on to issue. */
    method Agree(nonce: Bytes16, sp: u64, gap: Option<(u64, u64)>, issuer: Allocator.TransactionCore)
      returns (step: Step, ghost answers: Answers)
      requires Valid() && phase == HelloSent && issuer.Valid() && Repr() !! {issuer, issuer.media}
      modifies this, issuer, issuer.media
      ensures Valid() && issuer.Valid() && !step.Established?
      ensures (Value(), step) == HandshakeSpec.IssueAndConfirm(
                aead, old(Value()).(serverNonce := Some(nonce), agreed := Some(sp), wastedGap := gap), answers)
      ensures var asked := if cfg.localPointer < sp then sp - cfg.localPointer + 1 else 1;
              Drew(issuer, asked, answers) && (step.Send? ==> Drawn(answers) == asked)
      ensures step.Send? ==> old(issuer.current.next) + Drawn(answers) <= |issuer.reader.book| && session != null &&
                             KeyedBy(session.Value(), issuer.reader.book[old(issuer.current.next) + Drawn(answers) - 1])
    {
      hide HandshakeSpec.IssueAndConfirm, AllocatorRuns.Run, AllocatorRuns.Inv, AllocatorRuns.Next, AllocatorRuns.Range,
        FromBook, RowAnswers;
      wastedGap, serverNonce, agreed := gap, Some(nonce), Some(sp);
      step, answers := IssueAndConfirm(issuer);
    }

    method IssueAndConfirm(issuer: Allocator.TransactionCore) returns (step: Step, ghost answers: Answers)
      requires Valid() && session == null && agreed.Some? && issuer.Valid() && {this} !! {issuer, issuer.media}
      modifies this, issuer, issuer.media
      ensures Valid() && issuer.Valid()
      ensures (Value(), step) == HandshakeSpec.IssueAndConfirm(aead, old(Value()), answers)
      ensures !step.Established?
      ensures var asked := if cfg.localPointer < old(agreed.value) then old(agreed.value) - cfg.localPointer + 1 else 1;
              Drew(issuer, asked, answers) && (step.Send? ==> Drawn(answers) == asked)
      ensures step.Send? ==> old(issuer.current.next) + Drawn(answers) <= |issuer.reader.book| && session != null &&
                             KeyedBy(session.Value(), issuer.reader.book[old(issuer.current.next) + Drawn(answers) - 1])
    {
      hide HandshakeSpec.SealConfirm, IssuedInRow, Drew, AllocatorRuns.Run, AllocatorRuns.Inv, AllocatorRuns.Next;
      var i := agreed.value;
      var gap := if cfg.localPointer < i then i - cfg.localPointer else 0;
      var segment;
      segment, answers := IssueRow(issuer, gap + 1);
      if segment.Err? {
        phase := ClientFailed;
        return StepFailed(Issuer(segment.error)), answers;
      }
      if clientNonce.None? || serverNonce.None? {
        phase := ClientFailed;
        return StepFailed(Violation(BadOrder)), answers;
      }
      var ctx := SessionContext(Client, cfg.bookId, i, clientNonce.value, serverNonce.value);
      var made := new Session.Session(aead, segment.value, ctx);
      var confirm := SealConfirmOn(made, ClientToServer);
      ConfirmKeepsContext(aead, NewSession(segment.value, ctx), ClientToServer);
      NewIsKeyed(segment.value, ctx);
      if confirm.Err? {
        phase := ClientFailed;
        return StepFailed(confirm.error), answers;
      }
      session := made;
      phase := ConfirmSent;
      step := Send([IssueRequest(i, clientNonce.value, serverNonce.value), confirm.value]);
    }

    method OnConfirmS2c(segment: u64, nonce: Bytes16, epoch: u32, n: u64, sealed: Sealed)
      returns (step: Step, held: Session.Session?)
      requires Valid()
      modifies Repr()
      ensures Valid() && (Value(), step) == ClientOnConfirm(aead, old(Value()), segment, nonce, epoch, n, sealed)
      ensures !step.Send?
      ensures step.Established? ==> held != null && held.Valid() && held.Value() == step.session
    {
      hide AcceptConfirm;
      held := null;
      if agreed.None? || clientNonce.None? || serverNonce.None? || session == null {
        step := FailOrder();
        return;
      }
      var taken := session;
      session := null;
      var error := AcceptConfirmOn(taken, ServerToClient, segment, nonce, epoch, n, sealed);
      if error.Some? {
        phase := ClientFailed;
        step := StepFailed(error.value);
        return;
      }
      phase := ClientEstablished;
      held := taken;
      step := Established([], taken.Value(), agreed.value);
    }

    method Abort(reason: ErrorCode) returns (step: Step)
      requires Valid()
      modifies Repr()
      ensures Valid() && (Value(), step) == ClientAbort(old(Value()), reason)
    {
      BurnSession();
      phase := ClientFailed;
      step := StepFailed(Violation(reason));
    }
  }

  lemma ConfirmKeepsContext(aead: Aead, s: SessionState, d: Direction)
    requires s.Valid()
    ensures HandshakeSpec.SealConfirm(aead, s, d).0.Valid() && HandshakeSpec.SealConfirm(aead, s, d).0.ctx == s.ctx
    ensures HandshakeSpec.SealConfirm(aead, s, d).1.Ok? ==> HandshakeSpec.SealConfirm(aead, s, d).0.keys == s.keys
  {
    hide BuildAad, RecordNonce, Codec.EncodeConfirmBody;
  }

  class ServerHandshake {
    const cfg: Config
    const aead: Aead
    var phase: ServerPhase
    var clientNonce: Option<Bytes16>
    var serverNonce: Option<Bytes16>
    var agreed: Option<u64>
    var session: Session.Session?

    ghost function Repr(): set<object>
      reads this
    {
      {this} + if session == null then {} else {session}
    }

    ghost function Value(): ServerState
      reads this, Repr()
    {
      ServerState(cfg, phase, clientNonce, serverNonce, agreed, if session == null then None else Some(session.Value()))
    }

    ghost predicate Valid()
      reads this, Repr()
    {
      (session != null ==> session.Valid() && session.aead == aead) && ServerValid(Value())
    }

    constructor (cfg: Config, aead: Aead)
      ensures Valid() && Value() == NewServer(cfg) && this.aead == aead && Repr() == {this}
    {
      this.cfg, this.aead := cfg, aead;
      phase, clientNonce, serverNonce, agreed, session := ServerIdle, None, None, None, null;
    }

    method BurnSession()
      requires session != null ==> session.Valid()
      modifies Repr()
      ensures session == null && phase == old(phase) && clientNonce == old(clientNonce)
      ensures serverNonce == old(serverNonce) && agreed == old(agreed)
    {
      if session != null {
        session.CloseNormally();
        session := null;
      }
    }

    method FailOrder() returns (step: Step)
      requires Valid()
      modifies Repr()
      ensures Valid() && (Value(), step) == ServerOrderViolation(old(Value()))
    {
      BurnSession();
      phase := ServerFailed;
      step := StepFailed(Violation(BadOrder));
    }

    method OnHello(m: Message, nonce: Option<Bytes16>) returns (r: Result<Message, HandshakeError>)
      requires Valid()
      modifies Repr()
      ensures Valid() && (Value(), r) == ServerOnHello(old(Value()), m, nonce)
    {
      if phase != ServerIdle {
        BurnSession();
        phase := ServerFailed;
        return Err(Violation(BadOrder));
      }
      if !m.Hello? {
        phase := ServerFailed;
        return Err(Violation(BadOrder));
      }
      clientNonce := Some(m.clientNonce);
      if nonce.None? {
        return Err(Csprng);
      }
      if m.bookId != cfg.bookId {
        phase := ServerFailed;
        return Ok(Arbitrate(nonce.value, 0, BookMismatch));
      }
      var sp, cp, n := cfg.localPointer, m.clientPointer, cfg.segmentCount;
      var result, pointer;
      if sp >= n {
        result, pointer := Exhausted, n;
      } else if sp > cp {
        result, pointer := ServerAhead, sp;
      } else if cp > sp {
        result, pointer := ClientAhead, sp;
      } else {
        result, pointer := ResultOk, sp;
      }
      if result == ResultOk || result == ServerAhead {
        serverNonce, agreed := nonce, Some(sp);
        phase := IssueWait;
      } else {
        phase := if result == ClientAhead then AheadPending else ServerFailed;
      }
      r := Ok(Arbitrate(nonce.value, pointer, result));
    }

    method OnIssueRequest(m: Message, issuer: Allocator.TransactionCore) returns (step: Step, ghost answers: Answers)
      requires Valid() && issuer.Valid() && Repr() !! {issuer, issuer.media}
      modifies Repr(), issuer, issuer.media
      ensures Valid() && issuer.Valid() && (Value(), step) == ServerOnIssueRequest(old(Value()), m, answers)
      ensures Drew(issuer, ServerAsks(old(Value()), m), answers)
      ensures step == AwaitPeer <==> Drawn(answers) == ServerAsks(old(Value()), m) > 0
      ensures step == AwaitPeer ==> old(issuer.current.next) < |issuer.reader.book| && session != null &&
                                    KeyedBy(session.Value(), issuer.reader.book[old(issuer.current.next)])
    {
      hide AllocatorRuns.Run, AllocatorRuns.Inv, AllocatorRuns.Next, Drew, IssuedInRow, Drawn, KeyedBy;
      NothingDrawn(issuer);
      answers := [];
      if phase != IssueWait || !m.IssueRequest? || agreed.None? {
        step := FailOrder();
        return;
      }
      var i := agreed.value;
      if m.chosenPointer != i {
        phase := ServerFailed;
        return StepFailed(Violation(IssuePointerMismatch)), answers;
      }
      if clientNonce.None? || serverNonce.None? {
        step := FailOrder();
        return;
      }
      if m.clientNonce != clientNonce.value || m.serverNonce != serverNonce.value {
        BurnSession();
        phase := ServerFailed;
        return StepFailed(Authentication(NonceMismatch)), answers;
      }
      var segment := DrawOne(issuer);
      answers := [segment];
      assert answers[0] == segment;
      if segment.Err? {
        phase := ServerFailed;
        return StepFailed(Issuer(segment.error)), answers;
      }
      var ctx := SessionContext(Server, cfg.bookId, i, clientNonce.value, serverNonce.value);
      session := new Session.Session(aead, segment.value, ctx);
      NewIsKeyed(segment.value, ctx);
      phase := ConfirmWait;
      step := AwaitPeer;
    }

    method OnConfirm(m: Message) returns (step: Step, held: Session.Session?)
      requires Valid()
      modifies Repr()
      ensures Valid() && (Value(), step) == ServerOnConfirm(aead, old(Value()), m)
      ensures step.Established? ==> held != null && held.Valid() && held.Value() == step.session
    {
      hide AcceptConfirm, HandshakeSpec.SealConfirm;
      held := null;
      if phase != ConfirmWait || !m.ConfirmC2s? || agreed.None? || clientNonce.None? || serverNonce.None? || session == null {
        step := FailOrder();
        return;
      }
      var taken := session;
      session := null;
      var error := AcceptConfirmOn(taken, ClientToServer, m.segmentIndex, m.sessionNonce, m.epoch, m.seqNo, m.sealed);
      if error.Some? {
        phase := ServerFailed;
        step := StepFailed(error.value);
        return;
      }
      var confirm := SealConfirmOn(taken, ServerToClient);
      if confirm.Err? {
        phase := ServerFailed;
        step := StepFailed(confirm.error);
        return;
      }
      phase := ServerEstablished;
      held := taken;
      step := Established([confirm.value], taken.Value(), agreed.value);
    }

    method Abort(reason: ErrorCode) returns (step: Step)
      requires Valid()
      modifies Repr()
      ensures Valid() && (Value(), step) == ServerAbort(old(Value()), reason)
    {
      BurnSession();
      phase := ServerFailed;
      step := StepFailed(Violation(reason));
    }
  }
}
