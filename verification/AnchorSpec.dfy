/** Canonical anchor records, their 104-byte form, and the two-copy recovery decision. */
module AnchorSpec {
  import opened Bytes

  const RECORD_LEN := 104
  const PREFIX_LEN := 72
  const MAGIC: seq<byte> := [0x4F, 0x54, 0x50, 0x41]
  const VERSION: u16 := 2

  /** The digest is a parameter everywhere: nothing below depends on how it is computed. */
  type Hash = seq<byte> -> Bytes32

  datatype AnchorPayload =
    | Init
    | Intent(reserved: u64)
    | Commit(previousSegmentHash: Bytes32)
  {
    function Tag(): byte {
      match this
      case Init => 0
      case Intent(_) => 1
      case Commit(_) => 2
    }
  }

  datatype AnchorRecord = AnchorRecord(bookId: Bytes16, next: u64, generation: u64, payload: AnchorPayload)

  datatype AnchorCopy = A | B

  function InitRecord(bookId: Bytes16): AnchorRecord {
    AnchorRecord(bookId, 0, 0, Init)
  }

  function IntentRecord(bookId: Bytes16, generation: u64, reserved: u64): AnchorRecord
    requires reserved < U64_MAX
  {
    AnchorRecord(bookId, reserved + 1, generation, Intent(reserved))
  }

  function CommitRecord(bookId: Bytes16, generation: u64, next: u64, hash: Bytes32): AnchorRecord {
    AnchorRecord(bookId, next, generation, Commit(hash))
  }

  /** The records that have a canonical encoding. */
  predicate Canonical(r: AnchorRecord) {
    match r.payload
    case Init => r.generation == 0 && r.next == 0
    case Intent(reserved) => reserved + 1 == r.next
    case Commit(_) => r.next > 0
  }

  function PayloadBytes(p: AnchorPayload): (s: seq<byte>)
    ensures |s| == 32
  {
    match p
    case Init => Zeros(32)
    case Intent(reserved) => BE(8, reserved) + Zeros(24)
    case Commit(hash) => hash
  }

  function Prefix(r: AnchorRecord): (s: seq<byte>)
    ensures |s| == PREFIX_LEN
  {
    MAGIC + BE(2, VERSION) + [r.payload.Tag(), 0] + r.bookId + BE(8, r.generation) + BE(8, r.next)
    + PayloadBytes(r.payload)
  }

  /** The bytes `EncodeRecord` appends. */
  function Encoded(sha: Hash, r: AnchorRecord): (s: seq<byte>)
    ensures |s| == RECORD_LEN
  {
    Prefix(r) + sha(Prefix(r))
  }

  method CopyInto(a: array<byte>, at: nat, s: seq<byte>)
    requires at + |s| <= a.Length
    modifies a
    ensures forall i | 0 <= i < a.Length :: a[i] == if at <= i < at + |s| then s[i - at] else old(a[i])
  {
    forall i | 0 <= i < |s| {
      a[at + i] := s[i];
    }
  }

  method EncodeRecord(sha: Hash, r: AnchorRecord, out: seq<byte>) returns (out': seq<byte>)
    ensures out' == out + Encoded(sha, r)
  {
    var bytes := new byte[RECORD_LEN](_ => 0);
    assert bytes[..] == Zeros(RECORD_LEN);
    CopyInto(bytes, 0, MAGIC);
    CopyInto(bytes, 4, BE(2, VERSION));
    bytes[6] := r.payload.Tag();
    CopyInto(bytes, 8, r.bookId);
    CopyInto(bytes, 24, BE(8, r.generation));
    CopyInto(bytes, 32, BE(8, r.next));
    assert bytes[..40] == MAGIC + BE(2, VERSION) + [r.payload.Tag(), 0] + r.bookId
                          + BE(8, r.generation) + BE(8, r.next);
    assert bytes[40..] == Zeros(64);
    match r.payload {
      case Init =>
      case Intent(reserved) =>
        CopyInto(bytes, 40, BE(8, reserved));
      case Commit(hash) =>
        CopyInto(bytes, 40, hash);
    }
    assert bytes[40..72] == PayloadBytes(r.payload);
    assert bytes[..PREFIX_LEN] == bytes[..40] + bytes[40..72] == Prefix(r);
    var digest := sha(bytes[..PREFIX_LEN]);
    CopyInto(bytes, PREFIX_LEN, digest);
    assert bytes[..] == Prefix(r) + sha(Prefix(r));
    out' := out + bytes[..];
  }

  datatype DecodeReason =
    | BadLength | BadMagic | BadVersion | BadFlags
    | NonCanonicalInit | NonCanonicalIntent | IntentIndex | NonCanonicalCommit | RecordType

  datatype AnchorSpecError = DecodeFailed(reason: DecodeReason) | IntegrityCheckFailed

  predicate AllZero(s: seq<byte>) {
    forall i | 0 <= i < |s| :: s[i] == 0
  }

  function DecodePayload(tag: byte, generation: u64, next: u64, body: seq<byte>): Result<AnchorPayload, AnchorSpecError>
    requires |body| == 32
  {
    if tag == 0 then
      if generation != 0 || next != 0 || !AllZero(body) then Err(DecodeFailed(NonCanonicalInit)) else Ok(Init)
    else if tag == 1 then
      if next == 0 || !AllZero(body[8..]) then Err(DecodeFailed(NonCanonicalIntent))
      else if Low64(body[..8]) + 1 != next then Err(DecodeFailed(IntentIndex))
      else Ok(Intent(Low64(body[..8])))
    else if tag == 2 then
      if next == 0 then Err(DecodeFailed(NonCanonicalCommit)) else Ok(Commit(body))
    else
      Err(DecodeFailed(RecordType))
  }

  function DecodeAndVerify(sha: Hash, buf: seq<byte>): Result<AnchorRecord, AnchorSpecError> {
    if |buf| != RECORD_LEN then Err(DecodeFailed(BadLength))
    else if buf[0..4] != MAGIC then Err(DecodeFailed(BadMagic))
    else if Low16(buf[4..6]) != VERSION then Err(DecodeFailed(BadVersion))
    else if buf[7] != 0 then Err(DecodeFailed(BadFlags))
    else if sha(buf[..PREFIX_LEN]) != buf[PREFIX_LEN..] then Err(IntegrityCheckFailed)
    else
      var generation := Low64(buf[24..32]);
      var next := Low64(buf[32..40]);
      match DecodePayload(buf[6], generation, next, buf[40..72])
      case Err(e) => Err(e)
      case Ok(payload) => Ok(AnchorRecord(buf[8..24], next, generation, payload))
  }

  lemma PrefixFields(r: AnchorRecord)
    ensures Prefix(r)[0..4] == MAGIC
    ensures Prefix(r)[4..6] == BE(2, VERSION)
    ensures Prefix(r)[6] == r.payload.Tag() && Prefix(r)[7] == 0
    ensures Prefix(r)[8..24] == r.bookId
    ensures Prefix(r)[24..32] == BE(8, r.generation)
    ensures Prefix(r)[32..40] == BE(8, r.next)
    ensures Prefix(r)[40..72] == PayloadBytes(r.payload)
  {
  }

  /** Exactly the canonical records survive an encode followed by a decode. */
  lemma DecodeOfEncoded(sha: Hash, r: AnchorRecord)
    ensures Canonical(r) ==> DecodeAndVerify(sha, Encoded(sha, r)) == Ok(r)
    ensures !Canonical(r) ==> DecodeAndVerify(sha, Encoded(sha, r)).Err?
  {
    var buf := Encoded(sha, r);
    PrefixFields(r);
    IntegersRoundTrip();
    assert buf[..PREFIX_LEN] == Prefix(r) && buf[PREFIX_LEN..] == sha(Prefix(r));
    assert buf[0..4] == Prefix(r)[0..4] && buf[4..6] == Prefix(r)[4..6] && buf[8..24] == Prefix(r)[8..24];
    assert buf[24..32] == Prefix(r)[24..32] && buf[32..40] == Prefix(r)[32..40] && buf[40..72] == Prefix(r)[40..72];
    var body := buf[40..72];
    if r.payload.Intent? {
      assert body[..8] == BE(8, r.payload.reserved) && body[8..] == Zeros(24);
    }
  }

  lemma PayloadOfDecode(tag: byte, generation: u64, next: u64, body: seq<byte>)
    requires |body| == 32 && DecodePayload(tag, generation, next, body).Ok?
    ensures var p := DecodePayload(tag, generation, next, body).value;
            PayloadBytes(p) == body && p.Tag() == tag
  {
    if tag == 0 {
      assert body == Zeros(32);
    } else if tag == 1 {
      BEOfFromBE(body[..8]);
      assert body[8..] == Zeros(24);
      assert body == body[..8] + body[8..];
    }
  }

  /** Accepted bytes are exactly the encoding of what they decode to. */
  lemma EncodedOfDecode(sha: Hash, buf: seq<byte>)
    requires DecodeAndVerify(sha, buf).Ok?
    ensures Canonical(DecodeAndVerify(sha, buf).value)
    ensures Encoded(sha, DecodeAndVerify(sha, buf).value) == buf
  {
    var r := DecodeAndVerify(sha, buf).value;
    var body := buf[40..72];
    PayloadOfDecode(buf[6], r.generation, r.next, body);
    BEOfFromBE(buf[4..6]);
    BEOfFromBE(buf[24..32]);
    BEOfFromBE(buf[32..40]);
    Join(buf, 4, 6);
    Join(buf, 6, 8);
    Join(buf, 8, 24);
    Join(buf, 24, 32);
    Join(buf, 32, 40);
    Join(buf, 40, 72);
    Join(buf, 72, 104);
    assert buf[0..4] == buf[..4] && buf[6..8] == [buf[6], buf[7]] && buf[..104] == buf && buf[72..104] == buf[72..];
    assert Prefix(r) == buf[..72];
  }

  // ---- the order of records and the decision over two copies ----

  datatype Ordering = Less | Equal | Greater

  /** Generation first, then Init < Intent < Commit. */
  function StateCmp(x: AnchorRecord, y: AnchorRecord): Ordering {
    if x.generation < y.generation then Less
    else if x.generation > y.generation then Greater
    else if x.payload.Tag() < y.payload.Tag() then Less
    else if x.payload.Tag() > y.payload.Tag() then Greater
    else Equal
  }

  /** Records are ordered by generation, and within one an initial record comes before an intent before a commit. */
  lemma StateCmpMeans(x: AnchorRecord, y: AnchorRecord)
    ensures StateCmp(x, y) == Less <==>
            || x.generation < y.generation
            || (x.generation == y.generation
                && ((x.payload.Init? && !y.payload.Init?) || (x.payload.Intent? && y.payload.Commit?)))
    ensures StateCmp(x, y) == Greater <==> StateCmp(y, x) == Less
  {
  }

  datatype ReadFailure = Corrupt | Unreadable

  datatype UnsafeReason = BothAnchorsInvalid | BookIdMismatch | SameOrderDifferentBytes | OrderContradiction

  datatype RecoveryDecision =
    | Consistent(record: AnchorRecord)
    | AdoptHigher(adopted: AnchorRecord, stale: AnchorCopy)
    | QuarantineCorrupt(copy: AnchorCopy)
    | CannotProveSafe(reason: UnsafeReason)
    | BothUnreadable

  function Decide(a: Result<AnchorRecord, ReadFailure>, b: Result<AnchorRecord, ReadFailure>): RecoveryDecision {
    match (a, b)
    case (Err(Unreadable), Err(Unreadable)) => BothUnreadable
    case (Err(_), Ok(_)) => QuarantineCorrupt(A)
    case (Ok(_), Err(_)) => QuarantineCorrupt(B)
    case (Err(_), Err(_)) => CannotProveSafe(BothAnchorsInvalid)
    case (Ok(x), Ok(y)) =>
      if x.bookId != y.bookId then CannotProveSafe(BookIdMismatch)
      else if StateCmp(x, y) == Equal then
        if x == y then Consistent(x) else CannotProveSafe(SameOrderDifferentBytes)
      else if StateCmp(x, y) == Greater && x.next >= y.next then AdoptHigher(x, B)
      else if StateCmp(x, y) == Less && y.next >= x.next then AdoptHigher(y, A)
      else CannotProveSafe(OrderContradiction)
  }

  /** `x` is an earlier state than `y`, and its pointer is not ahead. */
  predicate Below(x: AnchorRecord, y: AnchorRecord) {
    StateCmp(x, y) == Less && x.next <= y.next
  }

  function Other(copy: AnchorCopy): AnchorCopy {
    if copy == A then B else A
  }

  /**
   * Two readable copies are accepted exactly when they are equal or one lies below the other; what is
   * adopted is one of the two, is never behind either, and the copy named stale is the lower one.
   */
  lemma DecideCharacterized(x: AnchorRecord, y: AnchorRecord)
    requires x.bookId == y.bookId
    ensures Decide(Ok(x), Ok(y)) == Consistent(x) <==> x == y
    ensures Decide(Ok(x), Ok(y)) == AdoptHigher(y, A) <==> Below(x, y)
    ensures Decide(Ok(x), Ok(y)) == AdoptHigher(x, B) <==> Below(y, x)
    ensures Decide(Ok(x), Ok(y)).CannotProveSafe? <==> x != y && !Below(x, y) && !Below(y, x)
  {
  }

  /** What is decided when a copy cannot be read, or the two cannot be compared, and why. */
  lemma DecideRefuses(a: Result<AnchorRecord, ReadFailure>, b: Result<AnchorRecord, ReadFailure>)
    ensures Decide(a, b) == BothUnreadable <==> a == Err(Unreadable) && b == Err(Unreadable)
    ensures Decide(a, b) == CannotProveSafe(BothAnchorsInvalid) <==> a.Err? && b.Err? && (a == Err(Corrupt) || b == Err(Corrupt))
    ensures Decide(a, b) == QuarantineCorrupt(A) <==> a.Err? && b.Ok?
    ensures Decide(a, b) == QuarantineCorrupt(B) <==> a.Ok? && b.Err?
    ensures Decide(a, b) == CannotProveSafe(BookIdMismatch) <==> a.Ok? && b.Ok? && a.value.bookId != b.value.bookId
    ensures Decide(a, b) == CannotProveSafe(SameOrderDifferentBytes) <==>
            && a.Ok? && b.Ok? && a.value.bookId == b.value.bookId && a.value != b.value
            && a.value.generation == b.value.generation && a.value.payload.Tag() == b.value.payload.Tag()
    ensures Decide(a, b).Consistent? || Decide(a, b).AdoptHigher? ==> a.Ok? && b.Ok?
  {
  }
}
