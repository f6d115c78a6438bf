/**
 * The AEAD record session: nonces, associated data, and what sealing, opening and closing do to a session,
 * as functions; then what holds over every sequence of calls.
 */
module SessionSpec {
  import opened Bytes
  import opened Types
  import Message

  const VERSION: u16 := 0x0002

  /** The AEAD is a parameter: two functions of key, nonce, associated data and text, and the longest text it takes. */
  datatype AeadFunctions = AeadFunctions(
    longest: nat,
    seal: (Bytes32, seq<byte>, seq<byte>, seq<byte>) -> seq<byte>,
    open: (Bytes32, seq<byte>, seq<byte>, seq<byte>) -> Option<seq<byte>>)
  {
    ghost predicate AddsTag() {
      forall k: Bytes32, n, a, p :: |seal(k, n, a, p)| == |p| + TAG_LEN
    }

    ghost predicate Undoes() {
      forall k: Bytes32, n, a, p :: open(k, n, a, seal(k, n, a, p)) == Some(p)
    }
  }

  /** Sealing adds exactly a tag, and a confirm body is not too long for it. */
  type Aead = a: AeadFunctions | a.AddsTag() && a.longest >= Message.CONFIRM_BODY_LEN
    witness AeadFunctions(Message.CONFIRM_BODY_LEN, (k, n, a, p) => p + Zeros(TAG_LEN), (k, n, a, c) => None)

  datatype MessageType = ClientConfirm | ServerConfirm | Data {
    function WireCode(): u16 {
      match this
      case ClientConfirm => 0x0004
      case ServerConfirm => 0x0005
      case Data => 0x0006
    }

    predicate IsConfirm() {
      this != Data
    }
  }

  predicate PairingValid(mt: MessageType, d: Direction) {
    mt == Data || (mt == ClientConfirm && d == ClientToServer) || (mt == ServerConfirm && d == ServerToClient)
  }

  datatype SessionContext = SessionContext(
    role: Role, bookId: Bytes16, segment: u64, clientNonce: Bytes16, serverNonce: Bytes16)
  {
    function SessionNonce(): Bytes16 {
      XorSeq(clientNonce, serverNonce)
    }
  }

  /** Three bytes of session nonce, the direction, the sequence number. */
  function RecordNonce(ctx: SessionContext, d: Direction, seqNo: u64): (n: seq<byte>)
    ensures |n| == 12
  {
    ctx.SessionNonce()[..3] + [DirectionWire(d)] + BE(8, seqNo)
  }

  function BuildAad(ctx: SessionContext, mt: MessageType, d: Direction, epoch: u32, seqNo: u64): (aad: seq<byte>)
    ensures |aad| == 73
  {
    BE(2, VERSION) + BE(2, mt.WireCode()) + [DirectionWire(d)] + ctx.bookId + BE(8, ctx.segment)
    + ctx.clientNonce + ctx.serverNonce + BE(4, epoch) + BE(8, seqNo)
  }

  /** Equal nonces under one context are nonces of the same direction and sequence number. */
  lemma RecordNonceInjective(ctx: SessionContext, d: Direction, n: u64, d': Direction, n': u64)
    requires RecordNonce(ctx, d, n) == RecordNonce(ctx, d', n')
    ensures d == d' && n == n'
  {
    var x, y := RecordNonce(ctx, d, n), RecordNonce(ctx, d', n');
    assert x[3] == DirectionWire(d) && y[3] == DirectionWire(d');
    assert x[4..] == BE(8, n) && y[4..] == BE(8, n');
    Pow256Values();
    FromBEOfBE(8, n);
    FromBEOfBE(8, n');
  }

  lemma FieldsOf(version: seq<byte>, code: seq<byte>, d: byte, book: Bytes16, segment: seq<byte>,
                 cn: Bytes16, sn: Bytes16, epoch: seq<byte>, seqNo: seq<byte>)
    requires |version| == 2 && |code| == 2 && |segment| == 8 && |epoch| == 4 && |seqNo| == 8
    ensures var aad := version + code + [d] + book + segment + cn + sn + epoch + seqNo;
            && aad[2..4] == code && aad[4] == d && aad[5..21] == book && aad[21..29] == segment
            && aad[29..45] == cn && aad[45..61] == sn && aad[61..65] == epoch && aad[65..73] == seqNo
  {
  }

  lemma AadFields(ctx: SessionContext, mt: MessageType, d: Direction, epoch: u32, seqNo: u64)
    ensures var aad := BuildAad(ctx, mt, d, epoch, seqNo);
            && FromBE(aad[2..4]) == mt.WireCode() && aad[4] == DirectionWire(d)
            && aad[5..21] == ctx.bookId && FromBE(aad[21..29]) == ctx.segment
            && aad[29..45] == ctx.clientNonce && aad[45..61] == ctx.serverNonce
            && FromBE(aad[61..65]) == epoch && FromBE(aad[65..73]) == seqNo
  {
    hide BE, FromBE, DirectionWire;
    FieldsOf(BE(2, VERSION), BE(2, mt.WireCode()), DirectionWire(d), ctx.bookId, BE(8, ctx.segment),
      ctx.clientNonce, ctx.serverNonce, BE(4, epoch), BE(8, seqNo));
    Pow256Values();
    FromBEOfBE(2, mt.WireCode());
    FromBEOfBE(8, ctx.segment);
    FromBEOfBE(4, epoch);
    FromBEOfBE(8, seqNo);
  }

  /** The associated data determine every field that goes into them. */
  lemma AadInjective(ctx: SessionContext, mt: MessageType, d: Direction, e: u32, n: u64,
                     ctx': SessionContext, mt': MessageType, d': Direction, e': u32, n': u64)
    requires BuildAad(ctx, mt, d, e, n) == BuildAad(ctx', mt', d', e', n')
    ensures mt == mt' && d == d' && e == e' && n == n'
    ensures ctx.bookId == ctx'.bookId && ctx.segment == ctx'.segment
    ensures ctx.clientNonce == ctx'.clientNonce && ctx.serverNonce == ctx'.serverNonce
  {
    hide BuildAad, FromBE;
    AadFields(ctx, mt, d, e, n);
    AadFields(ctx', mt', d', e', n');
  }

  // ---- the session ----

  datatype SessionError =
    | AuthenticationFailed | SequenceReplay | SequenceUnexpected | SequenceOverflow | WrongDirection | Closed

  datatype Termination = OnOverflow | OnAuthentication | OnSequence | OnMisuse | OnClose

  datatype Record = Record(sequence: u64, sealed: seq<byte>)

  /** The first half of a segment keys client-to-server, the second half server-to-client. */
  datatype SessionKeys = SessionKeys(c2s: Bytes32, s2c: Bytes32) {
    function For(d: Direction): Bytes32 {
      if d == ClientToServer then c2s else s2c
    }
  }

  function SplitKeys(segment: Bytes64): SessionKeys {
    SessionKeys(segment[..32], segment[32..])
  }

  /** The session encrypts what the client sends under the front half of `segment` and what the server sends under the back. */
  predicate KeyedBy(s: SessionState, segment: Bytes64) {
    && s.keys.Some? && s.keys.value.For(ClientToServer) == segment[0..32]
    && s.keys.value.For(ServerToClient) == segment[32..64]
  }

  lemma NewIsKeyed(segment: Bytes64, ctx: SessionContext)
    ensures KeyedBy(NewSession(segment, ctx), segment)
  {
  }

  /** Nothing of a segment is lost between the two keys, so sessions on different segments differ in a key. */
  lemma KeysAreSegment(s: SessionState, segment: Bytes64, s': SessionState, segment': Bytes64)
    requires KeyedBy(s, segment) && KeyedBy(s', segment')
    ensures s.keys.value.For(ClientToServer) + s.keys.value.For(ServerToClient) == segment
    ensures s.keys == s'.keys <==> segment == segment'
  {
    assert segment[0..32] + segment[32..64] == segment;
    assert segment'[0..32] + segment'[32..64] == segment';
  }

  datatype PerDirection<T> = PerDirection(c2s: T, s2c: T) {
    function Get(d: Direction): T {
      if d == ClientToServer then c2s else s2c
    }

    function Set(d: Direction, value: T): PerDirection<T> {
      if d == ClientToServer then PerDirection(value, s2c) else PerDirection(c2s, value)
    }
  }

  datatype SessionState = SessionState(
    ctx: SessionContext, keys: Option<SessionKeys>, sendSeq: PerDirection<u64>,
    recvLast: PerDirection<Option<u64>>, terminated: Option<Termination>)
  {
    /** Keys are held exactly while the session is active. */
    predicate Valid() {
      keys.Some? <==> terminated.None?
    }

    function SendDir(): Direction {
      ctx.role.SendDirection()
    }

    function RecvDir(): Direction {
      SendDir().Opposite()
    }

    function NextSend(): u64 {
      sendSeq.Get(SendDir())
    }

    function LastReceived(): Option<u64> {
      recvLast.Get(RecvDir())
    }

    function Terminate(reason: Termination): SessionState {
      this.(keys := None, terminated := Some(reason))
    }

    function InactiveError(): SessionError {
      if terminated == Some(OnOverflow) then SequenceOverflow else Closed
    }
  }

  function NewSession(segment: Bytes64, ctx: SessionContext): SessionState {
    SessionState(ctx, Some(SplitKeys(segment)), PerDirection(0, 0), PerDirection(None, None), None)
  }

  /** A confirm record is number 0 and a data record is not. */
  predicate Disciplined(mt: MessageType, seqNo: u64) {
    if mt.IsConfirm() then seqNo == 0 else seqNo >= 1
  }

  function SealBytes(aead: Aead, s: SessionState, mt: MessageType, plaintext: seq<byte>): seq<byte>
    requires s.keys.Some?
  {
    var d, n := s.SendDir(), s.NextSend();
    aead.seal(s.keys.value.For(d), RecordNonce(s.ctx, d, n), BuildAad(s.ctx, mt, d, 0, n), plaintext)
  }

  function Seal(aead: Aead, s: SessionState, mt: MessageType, plaintext: seq<byte>)
    : (SessionState, Result<Record, SessionError>)
    requires s.Valid()
  {
    if s.terminated.Some? then (s, Err(s.InactiveError()))
    else if !PairingValid(mt, s.SendDir()) then (s.Terminate(OnMisuse), Err(WrongDirection))
    else if !Disciplined(mt, s.NextSend()) then (s.Terminate(OnSequence), Err(SequenceUnexpected))
    else if |plaintext| > aead.longest then (s.Terminate(OnAuthentication), Err(AuthenticationFailed))
    else
      var n := s.NextSend();
      var record := Record(n, SealBytes(aead, s, mt, plaintext));
      if n == U64_MAX then (s.Terminate(OnOverflow), Ok(record))
      else (s.(sendSeq := s.sendSeq.Set(s.SendDir(), n + 1)), Ok(record))
  }

  /** The number the next record must carry; none once the last one has been accepted. */
  function Expected(last: Option<u64>): Option<u64> {
    match last
    case None => Some(0)
    case Some(n) => if n == U64_MAX then None else Some(n + 1)
  }

  function OpenBytes(aead: Aead, s: SessionState, mt: MessageType, seqNo: u64, sealed: seq<byte>): Option<seq<byte>>
    requires s.keys.Some?
  {
    var d := s.RecvDir();
    aead.open(s.keys.value.For(d), RecordNonce(s.ctx, d, seqNo), BuildAad(s.ctx, mt, d, 0, seqNo), sealed)
  }

  function Open(aead: Aead, s: SessionState, mt: MessageType, seqNo: u64, sealed: seq<byte>)
    : (SessionState, Result<seq<byte>, SessionError>)
    requires s.Valid()
  {
    if s.terminated.Some? then (s, Err(s.InactiveError()))
    else if !PairingValid(mt, s.RecvDir()) then (s.Terminate(OnMisuse), Err(WrongDirection))
    else if !Disciplined(mt, seqNo) then (s.Terminate(OnSequence), Err(SequenceUnexpected))
    else if s.LastReceived() == Some(seqNo) then (s.Terminate(OnSequence), Err(SequenceReplay))
    else if Expected(s.LastReceived()) != Some(seqNo) then (s.Terminate(OnSequence), Err(SequenceUnexpected))
    else if |sealed| < TAG_LEN then (s.Terminate(OnAuthentication), Err(AuthenticationFailed))
    else
      match OpenBytes(aead, s, mt, seqNo, sealed)
      case Some(plaintext) => (s.(recvLast := s.recvLast.Set(s.RecvDir(), Some(seqNo))), Ok(plaintext))
      case None => (s.Terminate(OnAuthentication), Err(AuthenticationFailed))
  }

  function CloseSession(s: SessionState): SessionState {
    if s.terminated.None? then s.Terminate(OnClose) else s
  }

  // ---- when a call succeeds, and what it does then ----

  /**
   * An active session seals exactly its own confirm as record 0, and data of any length the cipher takes from record 1
   * on; the record carries the next number, and after the last number of 64 bits the session is over.
   */
  lemma SealSucceedsIff(aead: Aead, s: SessionState, mt: MessageType, plaintext: seq<byte>)
    requires s.Valid()
    ensures Seal(aead, s, mt, plaintext).1.Ok? <==>
            && s.terminated.None? && |plaintext| <= aead.longest
            && (match mt
                case Data => s.NextSend() >= 1
                case ClientConfirm => s.ctx.role == Client && s.NextSend() == 0
                case ServerConfirm => s.ctx.role == Server && s.NextSend() == 0)
    ensures Seal(aead, s, mt, plaintext).1.Ok? ==>
              var (s', r) := Seal(aead, s, mt, plaintext);
              && r.value == Record(s.NextSend(), SealBytes(aead, s, mt, plaintext))
              && (s.NextSend() < 0xFFFF_FFFF_FFFF_FFFF ==>
                    s'.terminated.None? && s'.NextSend() == s.NextSend() + 1 && s'.keys == s.keys && s'.recvLast == s.recvLast)
              && (s.NextSend() == 0xFFFF_FFFF_FFFF_FFFF ==> s'.terminated == Some(OnOverflow) && s'.keys == None)
  {
    hide BuildAad, RecordNonce;
  }

  /** Why sealing fails and how the session ends by it: the first of the checks, in this order, that is not met. */
  lemma SealRefuses(aead: Aead, s: SessionState, mt: MessageType, plaintext: seq<byte>)
    requires s.Valid() && Seal(aead, s, mt, plaintext).1.Err?
    ensures var (s', r) := Seal(aead, s, mt, plaintext);
            && s'.keys == None
            && (s.terminated.Some? ==> s' == s && r.error == if s.terminated == Some(OnOverflow) then SequenceOverflow else Closed)
            && (s.terminated.None? ==>
                  var other := if s.ctx.role == Client then ServerConfirm else ClientConfirm;
                  if mt == other then r.error == WrongDirection && s'.terminated == Some(OnMisuse)
                  else if (mt == Data) != (s.NextSend() >= 1) then r.error == SequenceUnexpected && s'.terminated == Some(OnSequence)
                  else |plaintext| > aead.longest && r.error == AuthenticationFailed && s'.terminated == Some(OnAuthentication))
  {
    hide BuildAad, RecordNonce;
  }

  /** The number after the last accepted; the first record is number 0, and nothing follows the last of 64 bits. */
  predicate InTurn(last: Option<u64>, n: u64) {
    if last.None? then n == 0 else last.value < 0xFFFF_FFFF_FFFF_FFFF && n == last.value + 1
  }

  /** An active session accepts exactly the next record in turn, of a type its peer may send as that number, that opens. */
  lemma OpenSucceedsIff(aead: Aead, s: SessionState, mt: MessageType, n: u64, sealed: seq<byte>)
    requires s.Valid()
    ensures Open(aead, s, mt, n, sealed).1.Ok? <==>
            && s.terminated.None? && InTurn(s.LastReceived(), n) && |sealed| >= 16
            && (match mt
                case Data => n >= 1
                case ClientConfirm => s.ctx.role == Server && n == 0
                case ServerConfirm => s.ctx.role == Client && n == 0)
            && OpenBytes(aead, s, mt, n, sealed).Some?
    ensures Open(aead, s, mt, n, sealed).1.Ok? ==>
              var (s', r) := Open(aead, s, mt, n, sealed);
              && OpenBytes(aead, s, mt, n, sealed) == Some(r.value)
              && s'.LastReceived() == Some(n) && s' == s.(recvLast := s'.recvLast) && s'.recvLast.Get(s.SendDir()) == s.recvLast.Get(s.SendDir())
  {
    hide BuildAad, RecordNonce, OpenBytes;
  }

  /** Why opening fails and how the session ends by it. */
  lemma OpenRefuses(aead: Aead, s: SessionState, mt: MessageType, n: u64, sealed: seq<byte>)
    requires s.Valid() && Open(aead, s, mt, n, sealed).1.Err?
    ensures var (s', r) := Open(aead, s, mt, n, sealed);
            && s'.keys == None
            && (s.terminated.Some? ==> s' == s && r.error == if s.terminated == Some(OnOverflow) then SequenceOverflow else Closed)
            && (s.terminated.None? ==>
                  var own := if s.ctx.role == Client then ClientConfirm else ServerConfirm;
                  if mt == own then r.error == WrongDirection && s'.terminated == Some(OnMisuse)
                  else if (mt == Data) != (n >= 1) then r.error == SequenceUnexpected && s'.terminated == Some(OnSequence)
                  else if s.LastReceived() == Some(n) then r.error == SequenceReplay && s'.terminated == Some(OnSequence)
                  else if !InTurn(s.LastReceived(), n) then r.error == SequenceUnexpected && s'.terminated == Some(OnSequence)
                  else r.error == AuthenticationFailed && s'.terminated == Some(OnAuthentication))
  {
    hide BuildAad, RecordNonce, OpenBytes;
  }

  /** Closing ends an active session for good and burns its keys; a session already over keeps its first reason. */
  lemma CloseMeans(s: SessionState)
    requires s.Valid()
    ensures var s' := CloseSession(s);
            && s'.keys == None && s' == s.(keys := s'.keys, terminated := s'.terminated)
            && s'.terminated == if s.terminated.None? then Some(OnClose) else s.terminated
  {
  }

  /** A record is sealed and opened under the key of its direction and the nonce and associated data of its number. */
  lemma BytesGiven(aead: Aead, s: SessionState, mt: MessageType, n: u64, text: seq<byte>)
    requires s.keys.Some?
    ensures s.ctx.role == Client ==>
              && SealBytes(aead, s, mt, text) == aead.seal(s.keys.value.c2s, RecordNonce(s.ctx, ClientToServer, s.NextSend()),
                                                           BuildAad(s.ctx, mt, ClientToServer, 0, s.NextSend()), text)
              && OpenBytes(aead, s, mt, n, text) == aead.open(s.keys.value.s2c, RecordNonce(s.ctx, ServerToClient, n),
                                                              BuildAad(s.ctx, mt, ServerToClient, 0, n), text)
    ensures s.ctx.role == Server ==>
              && SealBytes(aead, s, mt, text) == aead.seal(s.keys.value.s2c, RecordNonce(s.ctx, ServerToClient, s.NextSend()),
                                                           BuildAad(s.ctx, mt, ServerToClient, 0, s.NextSend()), text)
              && OpenBytes(aead, s, mt, n, text) == aead.open(s.keys.value.c2s, RecordNonce(s.ctx, ClientToServer, n),
                                                              BuildAad(s.ctx, mt, ClientToServer, 0, n), text)
  {
    hide BuildAad, RecordNonce;
  }

  // ---- every sequence of calls ----

  datatype Call =
    | CallSeal(mt: MessageType, plaintext: seq<byte>)
    | CallOpen(openMt: MessageType, seqNo: u64, sealed: seq<byte>)
    | CallClose

  function After(aead: Aead, s: SessionState, c: Call): SessionState
    requires s.Valid()
  {
    match c
    case CallSeal(mt, plaintext) => Seal(aead, s, mt, plaintext).0
    case CallOpen(mt, n, sealed) => Open(aead, s, mt, n, sealed).0
    case CallClose => CloseSession(s)
  }

  lemma AfterKeepsValid(aead: Aead, s: SessionState, c: Call)
    requires s.Valid()
    ensures var s' := After(aead, s, c);
            s'.Valid() && s'.ctx == s.ctx && (s.terminated.Some? ==> s' == s) &&
            (s'.keys.Some? ==> s'.keys == s.keys)
  {
    hide BuildAad, RecordNonce;
  }

  /** One record that went out, with all the AEAD was given. */
  datatype SealedEntry = SealedEntry(
    mt: MessageType, seqNo: u64, key: Bytes32, nonce: seq<byte>, aad: seq<byte>, plaintext: seq<byte>, sealed: seq<byte>)

  function EntryOf(aead: Aead, s: SessionState, c: Call): seq<SealedEntry>
    requires s.Valid()
  {
    if c.CallSeal? && Seal(aead, s, c.mt, c.plaintext).1.Ok? then
      var d, n := s.SendDir(), s.NextSend();
      [SealedEntry(c.mt, n, s.keys.value.For(d), RecordNonce(s.ctx, d, n), BuildAad(s.ctx, c.mt, d, 0, n), c.plaintext,
                   Seal(aead, s, c.mt, c.plaintext).1.value.sealed)]
    else []
  }

  function SealLog(aead: Aead, s: SessionState, calls: seq<Call>): seq<SealedEntry>
    requires s.Valid()
    decreases |calls|
  {
    if |calls| == 0 then []
    else
      AfterKeepsValid(aead, s, calls[0]);
      EntryOf(aead, s, calls[0]) + SealLog(aead, After(aead, s, calls[0]), calls[1..])
  }

  datatype Accepted = Accepted(mt: MessageType, seqNo: u64, payload: seq<byte>)

  function AcceptedOf(aead: Aead, s: SessionState, c: Call): seq<Accepted>
    requires s.Valid()
  {
    if c.CallOpen? && Open(aead, s, c.openMt, c.seqNo, c.sealed).1.Ok? then
      [Accepted(c.openMt, c.seqNo, Open(aead, s, c.openMt, c.seqNo, c.sealed).1.value)]
    else []
  }

  function OpenLog(aead: Aead, s: SessionState, calls: seq<Call>): seq<Accepted>
    requires s.Valid()
    decreases |calls|
  {
    if |calls| == 0 then []
    else
      AfterKeepsValid(aead, s, calls[0]);
      AcceptedOf(aead, s, calls[0]) + OpenLog(aead, After(aead, s, calls[0]), calls[1..])
  }

  /** The entries a session seals from `s` on carry consecutive numbers, confirms exactly at 0. */
  predicate Consecutive(s: SessionState, log: seq<SealedEntry>) {
    forall i :: 0 <= i < |log| ==>
      && log[i].seqNo == s.NextSend() + i
      && s.keys.Some? && log[i].key == s.keys.value.For(s.SendDir())
      && log[i].nonce == RecordNonce(s.ctx, s.SendDir(), log[i].seqNo)
      && log[i].aad == BuildAad(s.ctx, log[i].mt, s.SendDir(), 0, log[i].seqNo)
      && PairingValid(log[i].mt, s.SendDir()) && Disciplined(log[i].mt, log[i].seqNo)
  }

  lemma {:induction false} TerminatedIsSilent(aead: Aead, s: SessionState, calls: seq<Call>)
    requires s.Valid() && s.terminated.Some?
    ensures SealLog(aead, s, calls) == [] && OpenLog(aead, s, calls) == []
    decreases |calls|
  {
    if |calls| > 0 {
      AfterKeepsValid(aead, s, calls[0]);
      TerminatedIsSilent(aead, After(aead, s, calls[0]), calls[1..]);
    }
  }

  /**
   * Whatever is called in whatever order, the records returned are numbered one after another, the confirm and
   * only the confirm at 0, each under the nonce and the associated data of its own number.
   */
  lemma {:induction false} SealedInOrder(aead: Aead, s: SessionState, calls: seq<Call>)
    requires s.Valid()
    ensures Consecutive(s, SealLog(aead, s, calls))
    decreases |calls|
  {
    hide BuildAad, RecordNonce;
    if |calls| > 0 {
      var s' := After(aead, s, calls[0]);
      AfterKeepsValid(aead, s, calls[0]);
      SealedInOrder(aead, s', calls[1..]);
      if s'.terminated.Some? {
        TerminatedIsSilent(aead, s', calls[1..]);
      } else {
        assert s'.NextSend() == s.NextSend() + |EntryOf(aead, s, calls[0])|;
      }
    }
  }

  /** So no two records of a session ever share a nonce. */
  lemma NoncesAreDistinct(aead: Aead, s: SessionState, calls: seq<Call>, i: nat, j: nat)
    requires s.Valid() && i < j < |SealLog(aead, s, calls)|
    ensures SealLog(aead, s, calls)[i].nonce != SealLog(aead, s, calls)[j].nonce
    ensures SealLog(aead, s, calls)[j].seqNo == SealLog(aead, s, calls)[i].seqNo + (j - i)
  {
    hide BuildAad, RecordNonce, SealLog;
    var log := SealLog(aead, s, calls);
    SealedInOrder(aead, s, calls);
    if log[i].nonce == log[j].nonce {
      RecordNonceInjective(s.ctx, s.SendDir(), log[i].seqNo, s.SendDir(), log[j].seqNo);
    }
  }

  /** A receiver accepts numbers one after another too, each opened under its own nonce and associated data. */
  predicate AcceptedInOrder(s: SessionState, log: seq<Accepted>, first: nat) {
    forall i :: 0 <= i < |log| ==>
      && log[i].seqNo == first + i
      && s.keys.Some? && PairingValid(log[i].mt, s.RecvDir()) && Disciplined(log[i].mt, log[i].seqNo)
  }

  function FirstExpected(s: SessionState): nat {
    if s.LastReceived().None? then 0 else s.LastReceived().value + 1
  }

  /** The bytes that led to an acceptance. */
  ghost predicate OpenedFrom(aead: Aead, s: SessionState, a: Accepted) {
    s.keys.Some? && exists sealed :: OpenBytes(aead, s, a.mt, a.seqNo, sealed) == Some(a.payload)
  }

  lemma AcceptStep(aead: Aead, s: SessionState, c: Call)
    requires s.Valid()
    ensures AcceptedInOrder(s, AcceptedOf(aead, s, c), FirstExpected(s))
    ensures forall a <- AcceptedOf(aead, s, c) :: OpenedFrom(aead, s, a)
    ensures var s' := After(aead, s, c);
            s'.terminated.None? ==> FirstExpected(s') == FirstExpected(s) + |AcceptedOf(aead, s, c)|
  {
    hide BuildAad, RecordNonce, SealBytes, OpenBytes;
    if c.CallOpen? && |AcceptedOf(aead, s, c)| > 0 {
      assert OpenBytes(aead, s, c.openMt, c.seqNo, c.sealed) == Some(AcceptedOf(aead, s, c)[0].payload);
    }
  }

  /** Until a session terminates, no call changes what a record opens to. */
  lemma OpenedBeforeToo(aead: Aead, s: SessionState, c: Call, a: Accepted)
    requires s.Valid() && OpenedFrom(aead, After(aead, s, c), a)
    ensures OpenedFrom(aead, s, a)
  {
    hide BuildAad, RecordNonce, After;
    AfterKeepsValid(aead, s, c);
    var s' := After(aead, s, c);
    var sealed :| OpenBytes(aead, s', a.mt, a.seqNo, sealed) == Some(a.payload);
    assert OpenBytes(aead, s, a.mt, a.seqNo, sealed) == Some(a.payload);
  }

  lemma {:induction false} OpenedInOrder(aead: Aead, s: SessionState, calls: seq<Call>)
    requires s.Valid()
    ensures AcceptedInOrder(s, OpenLog(aead, s, calls), FirstExpected(s))
    ensures forall a <- OpenLog(aead, s, calls) :: OpenedFrom(aead, s, a)
    decreases |calls|
  {
    hide After, AcceptedOf, OpenedFrom, FirstExpected, PairingValid, Disciplined;
    if |calls| > 0 {
      var s' := After(aead, s, calls[0]);
      AfterKeepsValid(aead, s, calls[0]);
      AcceptStep(aead, s, calls[0]);
      OpenedInOrder(aead, s', calls[1..]);
      var later := OpenLog(aead, s', calls[1..]);
      if s'.terminated.Some? {
        TerminatedIsSilent(aead, s', calls[1..]);
      } else {
        forall a | a in later
          ensures OpenedFrom(aead, s, a)
        {
          OpenedBeforeToo(aead, s, calls[0], a);
        }
      }
    }
  }

  // ---- two paired sessions ----

  predicate Paired(s: SessionState, r: SessionState) {
    && s.ctx.role != r.ctx.role && s.ctx.bookId == r.ctx.bookId && s.ctx.segment == r.ctx.segment
    && s.ctx.clientNonce == r.ctx.clientNonce && s.ctx.serverNonce == r.ctx.serverNonce
    && s.keys == r.keys
  }

  /** Entry `e` is what was sealed for a record of type `mt` and number `n` that session `r` receives. */
  predicate Matches(e: SealedEntry, r: SessionState, mt: MessageType, n: u64, text: seq<byte>) {
    && r.keys.Some? && e.key == r.keys.value.For(r.RecvDir()) && e.nonce == RecordNonce(r.ctx, r.RecvDir(), n)
    && e.aad == BuildAad(r.ctx, mt, r.RecvDir(), 0, n) && e.plaintext == text
  }

  /** If the bytes given to this call open where the session stands, they are an entry of the log. */
  ghost predicate Authentic(aead: Aead, r: SessionState, c: Call, log: seq<SealedEntry>) {
    c.CallOpen? && r.keys.Some? ==>
      match OpenBytes(aead, r, c.openMt, c.seqNo, c.sealed)
      case None => true
      case Some(text) => exists e <- log :: Matches(e, r, c.openMt, c.seqNo, text) && e.sealed == c.sealed
  }

  /** Of all the bytes the receiver is fed, only entries of the log open: nothing it is given is forged. */
  ghost predicate Unforged(aead: Aead, r: SessionState, calls: seq<Call>, log: seq<SealedEntry>)
    requires r.Valid()
    decreases |calls|
  {
    |calls| == 0 ||
    (AfterKeepsValid(aead, r, calls[0]);
     Authentic(aead, r, calls[0], log) && Unforged(aead, After(aead, r, calls[0]), calls[1..], log))
  }

  ghost predicate InLog(r: SessionState, a: Accepted, log: seq<SealedEntry>) {
    exists e <- log :: Matches(e, r, a.mt, a.seqNo, a.payload)
  }

  lemma AuthenticStep(aead: Aead, r: SessionState, c: Call, log: seq<SealedEntry>)
    requires r.Valid() && Authentic(aead, r, c, log)
    ensures forall a <- AcceptedOf(aead, r, c) :: InLog(r, a, log)
  {
    hide BuildAad, RecordNonce, SealBytes, OpenBytes;
    if c.CallOpen? && |AcceptedOf(aead, r, c)| > 0 {
      assert OpenBytes(aead, r, c.openMt, c.seqNo, c.sealed) == Some(AcceptedOf(aead, r, c)[0].payload);
    }
  }

  lemma InLogBefore(aead: Aead, r: SessionState, c: Call, a: Accepted, log: seq<SealedEntry>)
    requires r.Valid() && InLog(After(aead, r, c), a, log)
    ensures InLog(r, a, log)
  {
    hide BuildAad, RecordNonce, After;
    AfterKeepsValid(aead, r, c);
    var e :| e in log && Matches(e, After(aead, r, c), a.mt, a.seqNo, a.payload);
    assert Matches(e, r, a.mt, a.seqNo, a.payload);
  }

  lemma {:induction false} AcceptedIsLogged(aead: Aead, r: SessionState, calls: seq<Call>, log: seq<SealedEntry>)
    requires r.Valid() && Unforged(aead, r, calls, log)
    ensures forall a <- OpenLog(aead, r, calls) :: InLog(r, a, log)
    decreases |calls|
  {
    hide After, AcceptedOf, Authentic, InLog;
    if |calls| > 0 {
      AfterKeepsValid(aead, r, calls[0]);
      AuthenticStep(aead, r, calls[0], log);
      var r' := After(aead, r, calls[0]);
      AcceptedIsLogged(aead, r', calls[1..], log);
      forall a | a in OpenLog(aead, r', calls[1..])
        ensures InLog(r, a, log)
      {
        InLogBefore(aead, r, calls[0], a, log);
      }
    }
  }

  /**
   * Against any sequence of calls at either end, and any bytes fed to the receiver: if none of those bytes is forged,
   * what the receiver accepts is a prefix of what the sender sealed.
   */
  lemma AcceptedIsPrefixOfSealed(aead: Aead, s: SessionState, sCalls: seq<Call>, r: SessionState, rCalls: seq<Call>)
    requires s.Valid() && r.Valid() && Paired(s, r)
    requires s.NextSend() == 0 && r.LastReceived() == None
    requires Unforged(aead, r, rCalls, SealLog(aead, s, sCalls))
    ensures var sent, got := SealLog(aead, s, sCalls), OpenLog(aead, r, rCalls);
            |got| <= |sent| && forall i :: 0 <= i < |got| ==>
              got[i].payload == sent[i].plaintext && got[i].mt == sent[i].mt && got[i].seqNo == sent[i].seqNo
  {
    hide BuildAad, RecordNonce, SealLog, OpenLog, Unforged;
    var sent, got := SealLog(aead, s, sCalls), OpenLog(aead, r, rCalls);
    SealedInOrder(aead, s, sCalls);
    OpenedInOrder(aead, r, rCalls);
    AcceptedIsLogged(aead, r, rCalls, sent);
    forall i | 0 <= i < |got|
      ensures i < |sent| && got[i].payload == sent[i].plaintext && got[i].mt == sent[i].mt && got[i].seqNo == sent[i].seqNo
    {
      assert InLog(r, got[i], sent);
      var e :| e in sent && Matches(e, r, got[i].mt, got[i].seqNo, got[i].payload);
      var j :| 0 <= j < |sent| && sent[j] == e;
      AadInjective(r.ctx, got[i].mt, r.RecvDir(), 0, got[i].seqNo, s.ctx, sent[j].mt, s.SendDir(), 0, sent[j].seqNo);
      assert j == i;
    }
    if |got| > 0 {
      var last := |got| - 1;
      assert got[last].seqNo == sent[last].seqNo;
    }
  }

  /** The records of a log, handed to the receiver one by one as they are. */
  function Deliver(log: seq<SealedEntry>): (calls: seq<Call>)
    ensures |calls| == |log|
  {
    seq(|log|, i requires 0 <= i < |log| => CallOpen(log[i].mt, log[i].seqNo, log[i].sealed))
  }

  /** The entries are what the AEAD gave for the text, key, nonce and data they record. */
  predicate Given(aead: Aead, log: seq<SealedEntry>) {
    forall e <- log :: e.sealed == aead.seal(e.key, e.nonce, e.aad, e.plaintext)
  }

  lemma {:induction false} SealLogIsGiven(aead: Aead, s: SessionState, calls: seq<Call>)
    requires s.Valid()
    ensures Given(aead, SealLog(aead, s, calls))
    decreases |calls|
  {
    hide BuildAad, RecordNonce, After;
    if |calls| > 0 {
      AfterKeepsValid(aead, s, calls[0]);
      SealLogIsGiven(aead, After(aead, s, calls[0]), calls[1..]);
    }
  }

  /** The entry the receiver expects next opens, is accepted, and lets it expect the one after. */
  lemma NextEntryOpens(aead: Aead, r: SessionState, e: SealedEntry)
    requires aead.Undoes() && r.Valid() && r.terminated.None? && Expected(r.LastReceived()) == Some(e.seqNo)
    requires Matches(e, r, e.mt, e.seqNo, e.plaintext) && Given(aead, [e])
    requires PairingValid(e.mt, r.RecvDir()) && Disciplined(e.mt, e.seqNo)
    ensures OpenBytes(aead, r, e.mt, e.seqNo, e.sealed) == Some(e.plaintext)
    ensures var c := CallOpen(e.mt, e.seqNo, e.sealed);
            && AcceptedOf(aead, r, c) == [Accepted(e.mt, e.seqNo, e.plaintext)]
            && After(aead, r, c) == r.(recvLast := r.recvLast.Set(r.RecvDir(), Some(e.seqNo)))
  {
    hide BuildAad, RecordNonce;
    assert e in [e];
  }

  /** The entries are numbered from what `r` expects next, each sealed for it. */
  predicate Awaited(r: SessionState, log: seq<SealedEntry>) {
    forall i :: 0 <= i < |log| ==>
      && log[i].seqNo == FirstExpected(r) + i && Matches(log[i], r, log[i].mt, log[i].seqNo, log[i].plaintext)
      && PairingValid(log[i].mt, r.RecvDir()) && Disciplined(log[i].mt, log[i].seqNo)
  }

  /** The acceptances of all the entries of a log. */
  function Acceptances(log: seq<SealedEntry>): (accepted: seq<Accepted>)
    ensures |accepted| == |log|
  {
    seq(|log|, i requires 0 <= i < |log| => Accepted(log[i].mt, log[i].seqNo, log[i].plaintext))
  }

  lemma AwaitedStep(r: SessionState, log: seq<SealedEntry>)
    requires Awaited(r, log) && |log| > 0
    ensures Awaited(r.(recvLast := r.recvLast.Set(r.RecvDir(), Some(log[0].seqNo))), log[1..])
    ensures log[0].seqNo == FirstExpected(r) && Expected(r.LastReceived()) == Some(log[0].seqNo)
    ensures Matches(log[0], r, log[0].mt, log[0].seqNo, log[0].plaintext)
    ensures PairingValid(log[0].mt, r.RecvDir()) && Disciplined(log[0].mt, log[0].seqNo)
  {
    hide BuildAad, RecordNonce, PairingValid, Disciplined;
  }

  lemma {:induction false} AwaitedIsDelivered(aead: Aead, r: SessionState, log: seq<SealedEntry>, all: seq<SealedEntry>)
    requires aead.Undoes() && r.Valid() && r.terminated.None? && Awaited(r, log) && Given(aead, log)
    requires forall e <- log :: e in all
    ensures Unforged(aead, r, Deliver(log), all)
    ensures OpenLog(aead, r, Deliver(log)) == Acceptances(log)
    decreases |log|
  {
    hide After, AcceptedOf, OpenBytes, PairingValid, Disciplined, Awaited, Matches, FirstExpected;
    if |log| > 0 {
      var e, calls := log[0], Deliver(log);
      AwaitedStep(r, log);
      NextEntryOpens(aead, r, e);
      assert Authentic(aead, r, calls[0], all);
      AfterKeepsValid(aead, r, calls[0]);
      AwaitedIsDelivered(aead, After(aead, r, calls[0]), log[1..], all);
      assert calls[1..] == Deliver(log[1..]) && Acceptances(log) == Acceptances([e]) + Acceptances(log[1..]);
    }
  }

  /**
   * The two meet: with an AEAD that undoes what it does, a receiver handed the sealed records as they are is never
   * given a forgery, and accepts every one of them.
   */
  lemma UntamperedChannelDeliversAll(aead: Aead, s: SessionState, sCalls: seq<Call>, r: SessionState)
    requires aead.Undoes() && s.Valid() && r.Valid() && Paired(s, r) && r.terminated.None?
    requires s.NextSend() == 0 && r.LastReceived() == None
    ensures var sent := SealLog(aead, s, sCalls);
            && Unforged(aead, r, Deliver(sent), sent)
            && OpenLog(aead, r, Deliver(sent)) == Acceptances(sent)
  {
    hide BuildAad, RecordNonce, SealLog, OpenLog, Unforged, Given;
    var sent := SealLog(aead, s, sCalls);
    SealedInOrder(aead, s, sCalls);
    SealLogIsGiven(aead, s, sCalls);
    forall i | 0 <= i < |sent|
      ensures Matches(sent[i], r, sent[i].mt, sent[i].seqNo, sent[i].plaintext)
    {
      SameNonce(s.ctx, r.ctx, s.SendDir(), sent[i].seqNo);
      SameAad(s.ctx, r.ctx, sent[i].mt, s.SendDir(), sent[i].seqNo);
    }
    AwaitedIsDelivered(aead, r, sent, sent);
  }

  /** An untampered channel delivers: the record a session seals next is the one its peer can open next. */
  lemma SealedRecordOpens(aead: Aead, s: SessionState, r: SessionState, mt: MessageType, plaintext: seq<byte>)
    requires aead.Undoes() && s.Valid() && r.Valid() && Paired(s, r) && s.terminated.None?
    requires Expected(r.LastReceived()) == Some(s.NextSend())
    requires Seal(aead, s, mt, plaintext).1.Ok?
    ensures var record := Seal(aead, s, mt, plaintext).1.value;
            Open(aead, r, mt, record.sequence, record.sealed) ==
            (r.(recvLast := r.recvLast.Set(r.RecvDir(), Some(record.sequence))), Ok(plaintext))
  {
    hide BuildAad, RecordNonce;
    assert RecordNonce(s.ctx, s.SendDir(), s.NextSend()) == RecordNonce(r.ctx, r.RecvDir(), s.NextSend()) by {
      SameNonce(s.ctx, r.ctx, s.SendDir(), s.NextSend());
    }
    SameAad(s.ctx, r.ctx, mt, s.SendDir(), s.NextSend());
  }

  lemma SameNonce(c: SessionContext, c': SessionContext, d: Direction, n: u64)
    requires c.clientNonce == c'.clientNonce && c.serverNonce == c'.serverNonce
    ensures RecordNonce(c, d, n) == RecordNonce(c', d, n)
  {
  }

  lemma SameAad(c: SessionContext, c': SessionContext, mt: MessageType, d: Direction, n: u64)
    requires c.(role := Client) == c'.(role := Client)
    ensures BuildAad(c, mt, d, 0, n) == BuildAad(c', mt, d, 0, n)
  {
  }
}
