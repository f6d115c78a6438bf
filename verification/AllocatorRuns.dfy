/**
 * The dual-anchor transaction as a machine of single disk operations, with a crash possible between any
 * two of them. `Allocator.dfy` proves that the allocator's methods only ever take steps of this machine,
 * so what holds over its runs holds over every sequence of opens, issues, reservations and crashes.
 */
module AllocatorRuns {
  import opened Bytes
  import opened AnchorSpec

  datatype IssueError =
    | Exhausted(next: u64)
    | LockUnavailable
    | PersistenceUncertain
    | AnchorCorrupt
    | BookMismatch
    | Io
    | InvalidRange

  /** One immutable book, its identity, and the digest in use. */
  datatype Config = Config(sha: Hash, bookId: Bytes16, book: seq<Bytes64>) {
    predicate Valid() {
      |book| <= U64_MAX
    }
  }

  /** What a copy's bytes decode to. */
  datatype Image = Torn | Holds(record: AnchorRecord)

  /** A copy as the running system reads it, and as it would be found after a power loss. */
  datatype Cell = Cell(cached: Image, durable: Image)

  datatype Disk = Disk(a: Cell, b: Cell) {
    function At(copy: AnchorCopy): Cell {
      if copy == A then a else b
    }

    function Put(copy: AnchorCopy, cell: Cell): Disk {
      if copy == A then Disk(cell, b) else Disk(a, cell)
    }
  }

  /**
   * Where the process is. `pc` counts the disk operations of the pair (write A, sync A, write B, sync B)
   * or of the repair (write, sync) that have succeeded.
   */
  datatype Proc =
    | Down
    | Repair(current: AnchorRecord, stale: AnchorCopy, pc: nat)
    | Ready(current: AnchorRecord)
    | Persist(record: AnchorRecord, base: nat, final: bool, pc: nat)
    | Fetch(intent: AnchorRecord, base: nat)
    | Halted

  /** `handed` lists, in order, every segment index ever returned to a caller. */
  datatype State = State(disk: Disk, proc: Proc, handed: seq<nat>)

  // ---- what opening decides from the two copies ----

  function CheckAdopted(cfg: Config, r: AnchorRecord): bool {
    r.next <= |cfg.book| &&
    (r.payload.Commit? ==> r.next > 0 && cfg.sha(cfg.book[r.next - 1]) == r.payload.previousSegmentHash)
  }

  /** The adopted record and the copy that needs repair, or the refusal. */
  function OpenChoice(cfg: Config, a: Image, b: Image): Result<(AnchorRecord, Option<AnchorCopy>), IssueError> {
    if a.Torn? || b.Torn? then Err(AnchorCorrupt)
    else if a.record.bookId != cfg.bookId || b.record.bookId != cfg.bookId then Err(BookMismatch)
    else
      match Decide(Ok(a.record), Ok(b.record))
      case Consistent(r) => if CheckAdopted(cfg, r) then Ok((r, None)) else Err(AnchorCorrupt)
      case AdoptHigher(r, stale) => if CheckAdopted(cfg, r) then Ok((r, Some(stale))) else Err(AnchorCorrupt)
      case _ => Err(AnchorCorrupt)
  }

  /** A commit carries the digest of the segment just before its pointer. */
  predicate Attested(cfg: Config, r: AnchorRecord) {
    r.payload.Commit? ==> 0 < r.next <= |cfg.book| && cfg.sha(cfg.book[r.next - 1]) == r.payload.previousSegmentHash
  }

  function Higher(x: AnchorRecord, y: AnchorRecord): AnchorRecord {
    if Below(x, y) then y else x
  }

  /**
   * Two copies on which an allocator starts: both readable, both of this book, one at most the other, and the higher
   * pointing into the book or at its end, and attested if it is a commit.
   */
  predicate Startable(cfg: Config, a: Image, b: Image) {
    && a.Holds? && b.Holds? && a.record.bookId == cfg.bookId && b.record.bookId == cfg.bookId
    && (a.record == b.record || Below(a.record, b.record) || Below(b.record, a.record))
    && var top := Higher(a.record, b.record);
    && top.next <= |cfg.book| && Attested(cfg, top)
  }

  /** Opening succeeds exactly on such copies, with the higher record, repairing the lower; and why it is refused. */
  lemma OpenSucceedsIff(cfg: Config, a: Image, b: Image)
    ensures OpenChoice(cfg, a, b).Ok? <==> Startable(cfg, a, b)
    ensures OpenChoice(cfg, a, b).Ok? ==>
              OpenChoice(cfg, a, b).value == if Below(a.record, b.record) then (b.record, Some(A))
                                             else if Below(b.record, a.record) then (a.record, Some(B))
                                             else (a.record, None)
    ensures OpenChoice(cfg, a, b) == Err(BookMismatch) <==>
            a.Holds? && b.Holds? && !(a.record.bookId == cfg.bookId && b.record.bookId == cfg.bookId)
    ensures OpenChoice(cfg, a, b).Err? ==> OpenChoice(cfg, a, b).error in {AnchorCorrupt, BookMismatch}
  {
    if a.Holds? && b.Holds? && a.record.bookId == b.record.bookId {
      DecideCharacterized(a.record, b.record);
    }
  }

  // ---- the steps ----

  function WriteTarget(p: Proc): Option<(AnchorCopy, AnchorRecord)> {
    match p
    case Repair(r, stale, 0) => Some((stale, r))
    case Persist(r, _, _, 0) => Some((A, r))
    case Persist(r, _, _, 2) => Some((B, r))
    case _ => None
  }

  function SyncTarget(p: Proc): Option<AnchorCopy> {
    match p
    case Repair(_, stale, 1) => Some(stale)
    case Persist(_, _, _, 1) => Some(A)
    case Persist(_, _, _, 3) => Some(B)
    case _ => None
  }

  function Advance(p: Proc): Proc
    requires p.Repair? || p.Persist?
  {
    p.(pc := p.pc + 1)
  }

  predicate OpenStep(cfg: Config, s: State, s': State) {
    s.proc.Down? &&
    var choice := OpenChoice(cfg, s.disk.a.cached, s.disk.b.cached);
    choice.Ok? &&
    s' == s.(proc := if choice.value.1.None? then Ready(choice.value.0)
                     else Repair(choice.value.0, choice.value.1.value, 0))
  }

  /** A write lands whole; or it fails, having changed nothing, everything, or left undecodable bytes. */
  predicate WriteStep(s: State, s': State) {
    WriteTarget(s.proc).Some? &&
    var (copy, r) := WriteTarget(s.proc).value;
    var cell := s.disk.At(copy);
    || s' == s.(disk := s.disk.Put(copy, cell.(cached := Holds(r))), proc := Advance(s.proc))
    || (s'.proc.Halted? && s'.handed == s.handed &&
        (s'.disk == s.disk || s'.disk == s.disk.Put(copy, cell.(cached := Holds(r)))
         || s'.disk == s.disk.Put(copy, cell.(cached := Torn))))
  }

  /** A sync makes the cached bytes durable; a failed one may or may not have done so. */
  predicate SyncStep(s: State, s': State) {
    SyncTarget(s.proc).Some? &&
    var copy := SyncTarget(s.proc).value;
    var cell := s.disk.At(copy);
    var synced := s.disk.Put(copy, cell.(durable := cell.cached));
    || s' == s.(disk := synced, proc := Advance(s.proc))
    || (s'.proc.Halted? && s'.handed == s.handed && (s'.disk == s.disk || s'.disk == synced))
  }

  predicate FailStep(s: State, s': State) {
    !s.proc.Down? && s' == s.(proc := Halted)
  }

  predicate RepairedStep(s: State, s': State) {
    s.proc.Repair? && s.proc.pc == 2 && s.disk.At(s.proc.stale).cached == Holds(s.proc.current) &&
    s' == s.(proc := Ready(s.proc.current))
  }

  predicate BeginStep(cfg: Config, s: State, s': State, n: nat) {
    s.proc.Ready? && n > 0 &&
    var current := s.proc.current;
    current.next + n <= |cfg.book| <= U64_MAX && current.generation < U64_MAX &&
    s' == s.(proc := Persist(IntentRecord(cfg.bookId, current.generation + 1, current.next + n - 1),
                             current.next, false, 0))
  }

  predicate IntentDurableStep(s: State, s': State) {
    s.proc.Persist? && !s.proc.final && s.proc.pc == 4 &&
    s' == s.(proc := Fetch(s.proc.record, s.proc.base))
  }

  /** The bodies have been read: the commit record for the same generation is composed. */
  predicate FetchedStep(cfg: Config, s: State, s': State) {
    s.proc.Fetch? && 0 < s.proc.intent.next <= |cfg.book| &&
    var i := s.proc.intent;
    s' == s.(proc := Persist(CommitRecord(cfg.bookId, i.generation, i.next, cfg.sha(cfg.book[i.next - 1])),
                             s.proc.base, true, 0))
  }

  /** A failed read wastes the reservation but does not halt the allocator. */
  predicate FetchFailedStep(s: State, s': State) {
    s.proc.Fetch? && s' == s.(proc := Ready(s.proc.intent))
  }

  function Range(base: nat, next: nat): (r: seq<nat>)
    requires base <= next
    ensures |r| == next - base
  {
    seq(next - base, i requires i >= 0 => base + i)
  }

  predicate HandOutStep(s: State, s': State) {
    s.proc.Persist? && s.proc.final && s.proc.pc == 4 && s.proc.base <= s.proc.record.next &&
    s' == s.(proc := Ready(s.proc.record), handed := s.handed + Range(s.proc.base, s.proc.record.next))
  }

  /** The process dies; what it had written stays readable. */
  predicate KillStep(s: State, s': State) {
    s' == s.(proc := Down)
  }

  predicate Survives(cell: Cell, cell': Cell) {
    cell' == Cell(cell.cached, cell.cached) || cell' == Cell(cell.durable, cell.durable)
  }

  /** The machine dies; each copy comes back as either of its two versions. */
  predicate PowerLossStep(s: State, s': State) {
    s'.proc.Down? && s'.handed == s.handed && Survives(s.disk.a, s'.disk.a) && Survives(s.disk.b, s'.disk.b)
  }

  predicate FlushStep(s: State, s': State, copy: AnchorCopy) {
    s' == s.(disk := s.disk.Put(copy, s.disk.At(copy).(durable := s.disk.At(copy).cached)))
  }

  ghost predicate Begins(cfg: Config, s: State, s': State) {
    exists n: nat :: BeginStep(cfg, s, s', n)
  }

  /** Every step except the start of a new reservation. */
  ghost predicate Continues(cfg: Config, s: State, s': State) {
    || s' == s
    || OpenStep(cfg, s, s')
    || WriteStep(s, s') || SyncStep(s, s') || FailStep(s, s') || RepairedStep(s, s')
    || IntentDurableStep(s, s') || FetchedStep(cfg, s, s') || FetchFailedStep(s, s') || HandOutStep(s, s')
    || KillStep(s, s') || PowerLossStep(s, s') || FlushStep(s, s', A) || FlushStep(s, s', B)
  }

  ghost predicate Next(cfg: Config, s: State, s': State) {
    Begins(cfg, s, s') || Continues(cfg, s, s')
  }

  // ---- the invariant ----

  predicate InDisk(d: Disk, r: AnchorRecord) {
    d.a.cached == Holds(r) || d.a.durable == Holds(r) || d.b.cached == Holds(r) || d.b.durable == Holds(r)
  }

  predicate Genuine(cfg: Config, r: AnchorRecord) {
    r.bookId == cfg.bookId && Canonical(r) && CheckAdopted(cfg, r)
  }

  predicate AtMost(x: AnchorRecord, y: AnchorRecord) {
    x == y || Below(x, y)
  }

  predicate CellOrdered(c: Cell) {
    c.cached.Holds? ==> c.durable.Holds? && AtMost(c.durable.record, c.cached.record)
  }

  ghost predicate DiskOk(cfg: Config, d: Disk) {
    && (forall r :: InDisk(d, r) ==> Genuine(cfg, r))
    && (forall r, r' :: InDisk(d, r) && InDisk(d, r') ==> AtMost(r, r') || AtMost(r', r))
    && CellOrdered(d.a) && CellOrdered(d.b)
  }

  predicate Increasing(s: seq<nat>) {
    forall i, j :: 0 <= i < j < |s| ==> s[i] < s[j]
  }

  /** No surviving record points at or below a segment that was handed out. */
  ghost predicate Spent(d: Disk, handed: seq<nat>) {
    Increasing(handed) &&
    forall r, h :: InDisk(d, r) && h in handed ==> h < r.next
  }

  ghost predicate AllAtMost(d: Disk, top: AnchorRecord) {
    forall r :: InDisk(d, r) ==> AtMost(r, top)
  }

  predicate BothCached(d: Disk) {
    d.a.cached.Holds? && d.b.cached.Holds?
  }

  predicate Everywhere(d: Disk, r: AnchorRecord) {
    d == Disk(Cell(Holds(r), Holds(r)), Cell(Holds(r), Holds(r)))
  }

  ghost predicate ProcOk(cfg: Config, s: State) {
    var d := s.disk;
    match s.proc
    case Down => true
    case Halted => true
    case Ready(current) =>
      d.a.cached == Holds(current) && d.b.cached == Holds(current)
    case Repair(current, stale, pc) =>
      && BothCached(d) && d.At(Other(stale)).cached == Holds(current) && AllAtMost(d, current)
      && pc <= 2 && (pc >= 1 ==> d.At(stale).cached == Holds(current))
      && (pc == 0 ==> d.At(stale).cached != Holds(current))
    case Persist(record, base, final, pc) =>
      && BothCached(d) && AllAtMost(d, record) && Genuine(cfg, record)
      && pc <= 4
      && (pc >= 1 ==> d.a.cached == Holds(record)) && (pc >= 2 ==> d.a.durable == Holds(record))
      && (pc >= 3 ==> d.b.cached == Holds(record)) && (pc >= 4 ==> d.b.durable == Holds(record))
      && base < record.next
      && (forall h :: h in s.handed ==> h < base)
      && (final ==> record.payload.Commit? && forall r :: InDisk(d, r) ==> r.next == record.next)
      && (!final ==> record.payload.Intent?)
    case Fetch(intent, base) =>
      && Everywhere(d, intent) && intent.payload.Intent? && base < intent.next
      && (forall h :: h in s.handed ==> h < base)
  }

  ghost predicate Inv(cfg: Config, s: State) {
    cfg.Valid() && DiskOk(cfg, s.disk) && Spent(s.disk, s.handed) && ProcOk(cfg, s)
  }

  /** Both copies freshly initialised and nothing handed out. */
  predicate Initial(cfg: Config, s: State) {
    s == State(Disk(Cell(Holds(InitRecord(cfg.bookId)), Holds(InitRecord(cfg.bookId))),
                    Cell(Holds(InitRecord(cfg.bookId)), Holds(InitRecord(cfg.bookId)))), Down, [])
  }

  lemma InitialInv(cfg: Config, s: State)
    requires cfg.Valid() && Initial(cfg, s)
    ensures Inv(cfg, s)
  {
  }

  // ---- preservation, one kind of step at a time ----

  lemma OpenKeepsInv(cfg: Config, s: State, s': State)
    requires Inv(cfg, s) && OpenStep(cfg, s, s')
    ensures Inv(cfg, s')
  {
    var a, b := s.disk.a.cached.record, s.disk.b.cached.record;
    DecideCharacterized(a, b);
    assert InDisk(s.disk, a) && InDisk(s.disk, b);
    if s'.proc.Repair? {
      var top := s'.proc.current;
      forall r | InDisk(s.disk, r)
        ensures AtMost(r, top)
      {
        AtMostCached(s.disk, r, top);
      }
    }
  }

  /** Every surviving record lies at most at the higher cached one. */
  lemma AtMostCached(d: Disk, r: AnchorRecord, top: AnchorRecord)
    requires BothCached(d) && CellOrdered(d.a) && CellOrdered(d.b) && InDisk(d, r)
    requires AtMost(d.a.cached.record, top) && AtMost(d.b.cached.record, top)
    ensures AtMost(r, top)
  {
  }

  /** Replacing cached bytes by the top record, or by a torn write, keeps the disk coherent. */
  lemma WriteKeepsDisk(cfg: Config, d: Disk, copy: AnchorCopy, top: AnchorRecord, image: Image, handed: seq<nat>)
    requires DiskOk(cfg, d) && Spent(d, handed) && BothCached(d) && AllAtMost(d, top) && Genuine(cfg, top)
    requires image == Torn || image == Holds(top)
    ensures var d' := d.Put(copy, d.At(copy).(cached := image));
            DiskOk(cfg, d') && Spent(d', handed) && AllAtMost(d', top)
  {
    var d' := d.Put(copy, d.At(copy).(cached := image));
    var seen := d.At(copy).cached.record;
    assert InDisk(d, seen);
    assert forall r :: InDisk(d', r) ==> InDisk(d, r) || r == top;
    assert forall h :: h in handed ==> h < seen.next <= top.next;
    assert InDisk(d, d.At(copy).durable.record);
  }

  lemma WriteKeepsInv(cfg: Config, s: State, s': State)
    requires Inv(cfg, s) && WriteStep(s, s')
    ensures Inv(cfg, s')
  {
    var (copy, r) := WriteTarget(s.proc).value;
    assert Genuine(cfg, r) by {
      if s.proc.Repair? {
        assert InDisk(s.disk, r);
      }
    }
    WriteKeepsDisk(cfg, s.disk, copy, r, Holds(r), s.handed);
    WriteKeepsDisk(cfg, s.disk, copy, r, Torn, s.handed);
  }

  lemma DurableKeepsDisk(cfg: Config, d: Disk, copy: AnchorCopy, handed: seq<nat>)
    requires DiskOk(cfg, d) && Spent(d, handed)
    ensures var d' := d.Put(copy, d.At(copy).(durable := d.At(copy).cached));
            DiskOk(cfg, d') && Spent(d', handed) && forall r :: InDisk(d', r) ==> InDisk(d, r)
  {
    var d' := d.Put(copy, d.At(copy).(durable := d.At(copy).cached));
    assert forall r :: InDisk(d', r) ==> InDisk(d, r);
  }

  lemma SyncKeepsInv(cfg: Config, s: State, s': State)
    requires Inv(cfg, s) && SyncStep(s, s')
    ensures Inv(cfg, s')
  {
    DurableKeepsDisk(cfg, s.disk, SyncTarget(s.proc).value, s.handed);
  }

  lemma FlushKeepsInv(cfg: Config, s: State, s': State, copy: AnchorCopy)
    requires Inv(cfg, s) && FlushStep(s, s', copy)
    ensures Inv(cfg, s')
  {
    DurableKeepsDisk(cfg, s.disk, copy, s.handed);
  }

  lemma BeginKeepsInv(cfg: Config, s: State, s': State, n: nat)
    requires Inv(cfg, s) && BeginStep(cfg, s, s', n)
    ensures Inv(cfg, s')
  {
    var current := s.proc.current;
    assert InDisk(s.disk, current);
    forall r | InDisk(s.disk, r)
      ensures AtMost(r, s'.proc.record)
    {
      AtMostCached(s.disk, r, current);
    }
  }

  lemma FetchedKeepsInv(cfg: Config, s: State, s': State)
    requires Inv(cfg, s) && FetchedStep(cfg, s, s')
    ensures Inv(cfg, s')
  {
    var i := s.proc.intent;
    assert InDisk(s.disk, i);
    assert forall r :: InDisk(s.disk, r) ==> r == i;
    assert Below(i, s'.proc.record);
  }

  lemma HandOutKeepsInv(cfg: Config, s: State, s': State)
    requires Inv(cfg, s) && HandOutStep(s, s')
    ensures Inv(cfg, s')
    ensures Everywhere(s'.disk, s.proc.record)
  {
    var r := s.proc.record;
    assert Everywhere(s.disk, r);
    assert forall x :: InDisk(s.disk, x) ==> x == r;
    assert forall h :: h in s.handed ==> h < s.proc.base;
    forall i, j | 0 <= i < j < |s'.handed|
      ensures s'.handed[i] < s'.handed[j]
    {
      if i < |s.handed| {
        assert s'.handed[i] == s.handed[i] && s.handed[i] in s.handed;
      }
    }
  }

  lemma PowerLossKeepsInv(cfg: Config, s: State, s': State)
    requires Inv(cfg, s) && PowerLossStep(s, s')
    ensures Inv(cfg, s')
  {
    assert forall r :: InDisk(s'.disk, r) ==> InDisk(s.disk, r);
  }

  lemma NextKeepsInv(cfg: Config, s: State, s': State)
    requires Inv(cfg, s) && Next(cfg, s, s')
    ensures Inv(cfg, s')
  {
    if s' == s {
    } else if Begins(cfg, s, s') {
      var n: nat :| BeginStep(cfg, s, s', n);
      BeginKeepsInv(cfg, s, s', n);
    } else if OpenStep(cfg, s, s') {
      OpenKeepsInv(cfg, s, s');
    } else if WriteStep(s, s') {
      WriteKeepsInv(cfg, s, s');
    } else if SyncStep(s, s') {
      SyncKeepsInv(cfg, s, s');
    } else if FetchedStep(cfg, s, s') {
      FetchedKeepsInv(cfg, s, s');
    } else if HandOutStep(s, s') {
      HandOutKeepsInv(cfg, s, s');
    } else if PowerLossStep(s, s') {
      PowerLossKeepsInv(cfg, s, s');
    } else if FlushStep(s, s', A) {
      FlushKeepsInv(cfg, s, s', A);
    } else if FlushStep(s, s', B) {
      FlushKeepsInv(cfg, s, s', B);
    }
  }

  // ---- whole runs ----

  ghost predicate Run(cfg: Config, run: seq<State>) {
    |run| > 0 && forall i :: 0 <= i < |run| - 1 ==> Next(cfg, run[i], run[i + 1])
  }

  function Last(run: seq<State>): State
    requires |run| > 0
  {
    run[|run| - 1]
  }

  lemma {:induction false} RunKeepsInv(cfg: Config, run: seq<State>, i: nat)
    requires Run(cfg, run) && Inv(cfg, run[0]) && i < |run|
    ensures Inv(cfg, run[i])
  {
    if i > 0 {
      RunKeepsInv(cfg, run, i - 1);
      NextKeepsInv(cfg, run[i - 1], run[i]);
    }
  }

  /** The model oracle of the test kit: accepts an index unless it repeats one or falls behind. */
  function OracleObserve(next: nat, issued: set<nat>, index: nat): (r: (bool, nat, set<nat>)) {
    if index < next then (false, next, issued)
    else if index in issued then (false, next, issued)
    else (true, index + 1, issued + {index})
  }

  predicate OracleAccepts(next: nat, issued: set<nat>, indices: seq<nat>)
    decreases |indices|
  {
    |indices| == 0 ||
    var (ok, next', issued') := OracleObserve(next, issued, indices[0]);
    ok && OracleAccepts(next', issued', indices[1..])
  }

  /** The oracle accepts exactly the increasing sequences that start at or after its pointer. */
  lemma {:induction false} OracleAcceptsIncreasing(next: nat, issued: set<nat>, indices: seq<nat>)
    requires forall i :: i in issued ==> i < next
    ensures OracleAccepts(next, issued, indices) <==>
            Increasing(indices) && (|indices| > 0 ==> next <= indices[0])
    decreases |indices|
  {
    if |indices| > 0 && next <= indices[0] {
      var rest := indices[1..];
      OracleAcceptsIncreasing(indices[0] + 1, issued + {indices[0]}, rest);
      if Increasing(rest) && (|rest| > 0 ==> indices[0] + 1 <= rest[0]) {
        forall i, j | 0 <= i < j < |indices|
          ensures indices[i] < indices[j]
        {
          assert indices[j] == rest[j - 1] && rest[0] <= rest[j - 1];
          if i > 0 {
            assert indices[i] == rest[i - 1];
          }
        }
      }
    }
  }

  /** No run, whatever fails or crashes in it, ever hands out a segment twice or goes back. */
  lemma NoSegmentHandedOutTwice(cfg: Config, run: seq<State>, i: nat)
    requires cfg.Valid() && Run(cfg, run) && Initial(cfg, run[0]) && i < |run|
    ensures Increasing(run[i].handed)
    ensures OracleAccepts(0, {}, run[i].handed)
  {
    InitialInv(cfg, run[0]);
    RunKeepsInv(cfg, run, i);
    OracleAcceptsIncreasing(0, {}, run[i].handed);
  }

  /**
   * After any run, a stopped system both of whose copies are readable opens, on the higher of the two
   * records, with its pointer beyond everything ever handed out; the lower one is the copy repaired.
   */
  lemma UntornCrashStatesReopen(cfg: Config, s: State)
    requires Inv(cfg, s) && BothCached(s.disk)
    ensures var choice := OpenChoice(cfg, s.disk.a.cached, s.disk.b.cached);
            && choice.Ok?
            && var (r, stale) := choice.value;
               && AtMost(s.disk.a.cached.record, r) && AtMost(s.disk.b.cached.record, r)
               && (stale == None <==> s.disk.a.cached == s.disk.b.cached)
               && (stale.Some? ==> s.disk.At(Other(stale.value)).cached == Holds(r)
                                   && Below(s.disk.At(stale.value).cached.record, r))
               && forall h :: h in s.handed ==> h < r.next
  {
    var a, b := s.disk.a.cached.record, s.disk.b.cached.record;
    assert InDisk(s.disk, a) && InDisk(s.disk, b);
    DecideCharacterized(a, b);
  }

  /** In every state of every run a start is refused exactly when a copy is torn, and then as corrupt. */
  lemma TornCopyRefuses(cfg: Config, run: seq<State>, i: nat)
    requires cfg.Valid() && Run(cfg, run) && Initial(cfg, run[0]) && i < |run|
    ensures var d := run[i].disk;
            && (OpenChoice(cfg, d.a.cached, d.b.cached).Err? <==> !BothCached(d))
            && (OpenChoice(cfg, d.a.cached, d.b.cached).Err? ==> OpenChoice(cfg, d.a.cached, d.b.cached) == Err(AnchorCorrupt))
  {
    InitialInv(cfg, run[0]);
    RunKeepsInv(cfg, run, i);
    if BothCached(run[i].disk) {
      UntornCrashStatesReopen(cfg, run[i]);
    }
  }

  /** A body is only ever read when every surviving version already points past the whole reservation. */
  lemma BodyReadOnlyAfterIntentDurable(cfg: Config, run: seq<State>, i: nat)
    requires Run(cfg, run) && Inv(cfg, run[0]) && i < |run| && run[i].proc.Fetch?
    ensures var p := run[i].proc;
            Everywhere(run[i].disk, p.intent) && p.base < p.intent.next && p.intent.payload.Intent?
  {
    RunKeepsInv(cfg, run, i);
  }

  /** When indices are handed out, both copies durably hold the commit record and reopening is consistent. */
  lemma HandOutIsDurable(cfg: Config, s: State, s': State)
    requires Inv(cfg, s) && HandOutStep(s, s')
    ensures Everywhere(s'.disk, s'.proc.current) && s'.proc.current.payload.Commit?
    ensures s'.proc.current.next == s'.handed[|s'.handed| - 1] + 1
    ensures OpenChoice(cfg, s'.disk.a.cached, s'.disk.b.cached) == Ok((s'.proc.current, None))
  {
    HandOutKeepsInv(cfg, s, s');
    UntornCrashStatesReopen(cfg, s');
  }

  // ---- a reservation is kept whole or not at all ----

  /** `next` is past the reservation `[base, end)`, or not in it: at `base` if `exact`, else at most there. */
  predicate Outside(exact: bool, next: nat, base: nat, end: nat) {
    next == end || (if exact then next == base else next <= base)
  }

  ghost predicate DiskOutside(exact: bool, d: Disk, base: nat, end: nat) {
    forall r :: InDisk(d, r) ==> Outside(exact, r.next, base, end)
  }

  ghost predicate AllAt(d: Disk, base: nat) {
    forall r :: InDisk(d, r) ==> r.next == base
  }

  /** While nothing new is reserved, the process works on `[base, end)` or not at all. */
  predicate WorksOn(exact: bool, p: Proc, base: nat, end: nat) {
    match p
    case Persist(r, b, _, _) => b == base && r.next == end
    case Fetch(r, b) => b == base && r.next == end
    case Repair(r, _, _) => Outside(exact, r.next, base, end)
    case _ => true
  }

  /** No step brings a record onto the disk other than the one the process is writing. */
  lemma NewRecordsAreWritten(cfg: Config, s: State, s': State)
    requires Continues(cfg, s, s')
    ensures forall r :: InDisk(s'.disk, r) ==>
              InDisk(s.disk, r) || (WriteTarget(s.proc).Some? && r == WriteTarget(s.proc).value.1)
  {
    hide OpenChoice;
  }

  /** What a start adopts is one of the two records it read. */
  lemma AdoptedIsRead(cfg: Config, s: State)
    requires Inv(cfg, s) && OpenChoice(cfg, s.disk.a.cached, s.disk.b.cached).Ok?
    ensures var r := OpenChoice(cfg, s.disk.a.cached, s.disk.b.cached).value.0;
            && InDisk(s.disk, r) && BothCached(s.disk)
            && s.disk.a.cached.record.next <= r.next && s.disk.b.cached.record.next <= r.next
  {
    DecideCharacterized(s.disk.a.cached.record, s.disk.b.cached.record);
  }

  /** Nothing but a start makes the process work on something new. */
  lemma ContinuingWorksOn(cfg: Config, s: State, s': State, exact: bool, base: nat, end: nat)
    requires Continues(cfg, s, s') && WorksOn(exact, s.proc, base, end)
    requires OpenStep(cfg, s, s') ==>
               Outside(exact, OpenChoice(cfg, s.disk.a.cached, s.disk.b.cached).value.0.next, base, end)
    ensures WorksOn(exact, s'.proc, base, end)
  {
    hide OpenChoice, Outside;
  }

  lemma ContinuingStaysOutside(cfg: Config, s: State, s': State, exact: bool, base: nat, end: nat)
    requires Inv(cfg, s) && Continues(cfg, s, s')
    requires DiskOutside(exact, s.disk, base, end) && WorksOn(exact, s.proc, base, end)
    ensures DiskOutside(exact, s'.disk, base, end) && WorksOn(exact, s'.proc, base, end)
  {
    hide Inv, OpenChoice, Continues;
    NewRecordsAreWritten(cfg, s, s');
    if OpenStep(cfg, s, s') {
      AdoptedIsRead(cfg, s);
    }
    ContinuingWorksOn(cfg, s, s', exact, base, end);
  }

  lemma BeginIsOutside(cfg: Config, s: State, s': State, n: nat, exact: bool)
    requires Inv(cfg, s) && BeginStep(cfg, s, s', n)
    requires exact ==> AllAt(s.disk, s.proc.current.next)
    ensures var base := s.proc.current.next;
            DiskOutside(exact, s'.disk, base, base + n) && WorksOn(exact, s'.proc, base, base + n)
  {
    var current := s.proc.current;
    forall r | InDisk(s.disk, r)
      ensures Outside(exact, r.next, current.next, current.next + n)
    {
      AtMostCached(s.disk, r, current);
    }
  }

  /** A reservation of `n` segments starts in `run[0]`, and no other one starts after it. */
  ghost predicate Reserving(cfg: Config, run: seq<State>, n: nat) {
    Run(cfg, run) && |run| > 1 && BeginStep(cfg, run[0], run[1], n) &&
    forall j :: 1 <= j < |run| - 1 ==> Continues(cfg, run[j], run[j + 1])
  }

  /**
   * Start a reservation of `n` segments at pointer `base`. Until another reservation starts, through every
   * failure, crash, power loss and reopening, every record that survives points at most at `base` or at
   * exactly `base + n`, never at a part of the range; and if every surviving record pointed at `base` when it
   * started (`exact`), at exactly `base` or exactly `base + n`.
   */
  lemma {:induction false} WholeRangeOrNothing(cfg: Config, run: seq<State>, n: nat, exact: bool, i: nat)
    requires Reserving(cfg, run, n) && Inv(cfg, run[0]) && 0 < i < |run|
    requires exact ==> AllAt(run[0].disk, run[0].proc.current.next)
    ensures var base := run[0].proc.current.next;
            DiskOutside(exact, run[i].disk, base, base + n) && WorksOn(exact, run[i].proc, base, base + n)
  {
    hide Inv, DiskOutside, WorksOn, Continues;
    var current := run[0].proc.current;
    if i == 1 {
      BeginIsOutside(cfg, run[0], run[1], n, exact);
    } else {
      WholeRangeOrNothing(cfg, run, n, exact, i - 1);
      RunKeepsInv(cfg, run, i - 1);
      ContinuingStaysOutside(cfg, run[i - 1], run[i], exact, current.next, current.next + n);
    }
  }

  /** Neither durable copy has caught up with `current`. */
  predicate FallsBack(d: Disk, current: AnchorRecord) {
    d.a.durable.Holds? && d.a.durable.record.next < current.next &&
    d.b.durable.Holds? && d.b.durable.record.next < current.next
  }

  /**
   * From a ready allocator, a power loss can bring the pointer below the one in memory exactly when neither
   * durable copy has caught up with it.
   */
  lemma PointerFallsBackIff(cfg: Config, s: State)
    requires Inv(cfg, s) && s.proc.Ready?
    ensures FallsBack(s.disk, s.proc.current) <==>
            exists s' :: PowerLossStep(s, s') &&
                         OpenChoice(cfg, s'.disk.a.cached, s'.disk.b.cached).Ok? &&
                         OpenChoice(cfg, s'.disk.a.cached, s'.disk.b.cached).value.0.next < s.proc.current.next
  {
    var d := s.disk;
    if FallsBack(d, s.proc.current) {
      var s' := State(Disk(Cell(d.a.durable, d.a.durable), Cell(d.b.durable, d.b.durable)), Down, s.handed);
      assert PowerLossStep(s, s');
      PowerLossKeepsInv(cfg, s, s');
      UntornCrashStatesReopen(cfg, s');
    }
    forall s' | PowerLossStep(s, s') && OpenChoice(cfg, s'.disk.a.cached, s'.disk.b.cached).Ok? &&
                OpenChoice(cfg, s'.disk.a.cached, s'.disk.b.cached).value.0.next < s.proc.current.next
      ensures FallsBack(d, s.proc.current)
    {
      DecideCharacterized(s'.disk.a.cached.record, s'.disk.b.cached.record);
    }
  }

  // ---- which pointer a later start recovers ----

  predicate ImageAtEnds(image: Image, base: nat, end: nat) {
    image.Holds? ==> image.record.next == base || image.record.next == end
  }

  /** Both versions of a copy point at one end of the range. */
  predicate CopyAtEnds(d: Disk, copy: AnchorCopy, base: nat, end: nat) {
    ImageAtEnds(d.At(copy).cached, base, end) && ImageAtEnds(d.At(copy).durable, base, end)
  }

  /** With one copy at the ends of the range and all records outside it, what is adopted is at an end too. */
  lemma AdoptedAtEnds(cfg: Config, s: State, copy: AnchorCopy, base: nat, end: nat)
    requires Inv(cfg, s) && DiskOutside(false, s.disk, base, end) && CopyAtEnds(s.disk, copy, base, end) && base <= end
    requires OpenChoice(cfg, s.disk.a.cached, s.disk.b.cached).Ok?
    ensures var next := OpenChoice(cfg, s.disk.a.cached, s.disk.b.cached).value.0.next; next == base || next == end
  {
    hide Inv, OpenChoice;
    AdoptedIsRead(cfg, s);
  }

  /** A copy only ever holds what it held, torn bytes, or the record the process is writing. */
  lemma NewImages(cfg: Config, s: State, s': State, copy: AnchorCopy)
    requires Continues(cfg, s, s')
    ensures var cell, cell' := s.disk.At(copy), s'.disk.At(copy);
            && (cell'.durable == cell.durable || cell'.durable == cell.cached)
            && (cell'.cached == cell.cached || cell'.cached == cell.durable || cell'.cached == Torn ||
                (WriteTarget(s.proc).Some? && cell'.cached == Holds(WriteTarget(s.proc).value.1)))
  {
    hide OpenChoice;
  }

  lemma ContinuingKeepsEnds(cfg: Config, s: State, s': State, copy: AnchorCopy, base: nat, end: nat)
    requires Inv(cfg, s) && Continues(cfg, s, s') && base <= end
    requires DiskOutside(false, s.disk, base, end)
    requires CopyAtEnds(s.disk, copy, base, end) && WorksOn(true, s.proc, base, end)
    ensures CopyAtEnds(s'.disk, copy, base, end) && WorksOn(true, s'.proc, base, end)
  {
    hide Inv, OpenChoice, DiskOutside, Continues;
    if OpenStep(cfg, s, s') {
      AdoptedAtEnds(cfg, s, copy, base, end);
    }
    ContinuingWorksOn(cfg, s, s', true, base, end);
    NewImages(cfg, s, s', copy);
  }

  /** A copy that has durably caught up when a reservation starts stays at the ends of its range. */
  lemma {:induction false} CaughtUpCopyStaysAtEnds(cfg: Config, run: seq<State>, n: nat, copy: AnchorCopy, i: nat)
    requires Reserving(cfg, run, n) && Inv(cfg, run[0]) && 0 < i < |run|
    requires var d, next := run[0].disk, run[0].proc.current.next; CopyAtEnds(d, copy, next, next)
    ensures var base := run[0].proc.current.next;
            CopyAtEnds(run[i].disk, copy, base, base + n) && WorksOn(true, run[i].proc, base, base + n)
  {
    hide Inv, DiskOutside, Continues;
    var current := run[0].proc.current;
    if i > 1 {
      CaughtUpCopyStaysAtEnds(cfg, run, n, copy, i - 1);
      WholeRangeOrNothing(cfg, run, n, false, i - 1);
      RunKeepsInv(cfg, run, i - 1);
      hide BeginStep, CopyAtEnds, WorksOn;
      ContinuingKeepsEnds(cfg, run[i - 1], run[i], copy, current.next, current.next + n);
    }
  }

  /** Unless the pointer can fall back, some copy has caught up in both versions. */
  lemma CaughtUpCopy(cfg: Config, s: State) returns (copy: AnchorCopy)
    requires Inv(cfg, s) && s.proc.Ready? && !FallsBack(s.disk, s.proc.current)
    ensures var next := s.proc.current.next; CopyAtEnds(s.disk, copy, next, next)
  {
    copy := if s.disk.a.durable.Holds? && s.disk.a.durable.record.next < s.proc.current.next then B else A;
  }

  /**
   * Consequently a later start succeeds exactly when no copy is torn, on a pointer outside the range: past it, or
   * at most at its beginning; and exactly at its beginning unless the pointer could fall back when it started.
   */
  lemma RecoveredPointerIsOutside(cfg: Config, run: seq<State>, n: nat, i: nat)
    requires Reserving(cfg, run, n) && Inv(cfg, run[0]) && 0 < i < |run|
    ensures var choice := OpenChoice(cfg, run[i].disk.a.cached, run[i].disk.b.cached);
            var base := run[0].proc.current.next;
            && (choice.Ok? <==> BothCached(run[i].disk))
            && (choice.Ok? ==> Outside(!FallsBack(run[0].disk, run[0].proc.current), choice.value.0.next, base, base + n))
  {
    hide DiskOutside, WorksOn, CopyAtEnds, OpenChoice;
    var s, base := run[i], run[0].proc.current.next;
    RunKeepsInv(cfg, run, i);
    WholeRangeOrNothing(cfg, run, n, false, i);
    if OpenChoice(cfg, s.disk.a.cached, s.disk.b.cached).Ok? {
      AdoptedOutside(cfg, s, base, base + n);
      if !FallsBack(run[0].disk, run[0].proc.current) {
        var copy := CaughtUpCopy(cfg, run[0]);
        CaughtUpCopyStaysAtEnds(cfg, run, n, copy, i);
        AdoptedAtEnds(cfg, s, copy, base, base + n);
      }
    } else if BothCached(s.disk) {
      UntornCrashStatesReopen(cfg, s);
    }
  }

  lemma AdoptedOutside(cfg: Config, s: State, base: nat, end: nat)
    requires Inv(cfg, s) && DiskOutside(false, s.disk, base, end)
    requires OpenChoice(cfg, s.disk.a.cached, s.disk.b.cached).Ok?
    ensures BothCached(s.disk) && Outside(false, OpenChoice(cfg, s.disk.a.cached, s.disk.b.cached).value.0.next, base, end)
  {
    AdoptedIsRead(cfg, s);
  }

  /** Whatever happens after the reservation of `n` starts in `s`, a start recovers one end of the range. */
  ghost predicate RecoversAnEnd(cfg: Config, s: State, n: nat)
    requires s.proc.Ready?
  {
    forall run: seq<State>, i: nat :: i < |run| && Reserving(cfg, run, n) && run[0] == s && 0 < i ==>
      RecoveredAt(cfg, run[i], s.proc.current.next) || RecoveredAt(cfg, run[i], s.proc.current.next + n)
  }

  /** If a start succeeds now, it recovers the pointer `next`. */
  predicate RecoveredAt(cfg: Config, s: State, next: nat) {
    var choice := OpenChoice(cfg, s.disk.a.cached, s.disk.b.cached);
    choice.Ok? ==> choice.value.0.next == next
  }

  /**
   * Of a reservation that can start in `s`: every later start recovers the old pointer or the one past the range,
   * exactly when one of the durable copies had caught up with the pointer in memory.
   */
  lemma RangeIsWholeIff(cfg: Config, s: State, n: nat)
    requires Inv(cfg, s) && s.proc.Ready? && n > 0
    requires s.proc.current.next + n <= |cfg.book| && s.proc.current.generation < U64_MAX
    ensures RecoversAnEnd(cfg, s, n) <==> !FallsBack(s.disk, s.proc.current)
  {
    hide Inv, OpenChoice, Reserving;
    if FallsBack(s.disk, s.proc.current) {
      var run := FallingRun(cfg, s, n);
      assert Reserving(cfg, run, n) && run[0] == s && !RecoveredAt(cfg, run[2], s.proc.current.next);
    } else {
      forall run: seq<State>, i: nat | i < |run| && Reserving(cfg, run, n) && run[0] == s && 0 < i
        ensures RecoveredAt(cfg, run[i], s.proc.current.next) || RecoveredAt(cfg, run[i], s.proc.current.next + n)
      {
        RecoveredPointerIsOutside(cfg, run, n, i);
      }
    }
  }

  /** The reservation starts, and the power fails at once. */
  lemma FallingRun(cfg: Config, s: State, n: nat) returns (run: seq<State>)
    requires Inv(cfg, s) && s.proc.Ready? && n > 0 && FallsBack(s.disk, s.proc.current)
    requires s.proc.current.next + n <= |cfg.book| && s.proc.current.generation < U64_MAX
    ensures |run| == 3 && Reserving(cfg, run, n) && run[0] == s
    ensures var choice := OpenChoice(cfg, run[2].disk.a.cached, run[2].disk.b.cached);
            choice.Ok? && choice.value.0.next < s.proc.current.next
  {
    var d, current := s.disk, s.proc.current;
    var intent := IntentRecord(cfg.bookId, current.generation + 1, current.next + n - 1);
    var s1 := s.(proc := Persist(intent, current.next, false, 0));
    var s2 := State(Disk(Cell(d.a.durable, d.a.durable), Cell(d.b.durable, d.b.durable)), Down, s.handed);
    run := [s, s1, s2];
    assert BeginStep(cfg, s, s1, n) && PowerLossStep(s, s2) && PowerLossStep(s1, s2);
    PowerLossKeepsInv(cfg, s, s2);
    UntornCrashStatesReopen(cfg, s2);
  }

  /**
   * Such a state is reachable: an intent lands in copy A only, the process dies, the next one writes copy B
   * and dies before syncing it, and a third finds two equal copies and opens without making either durable.
   */
  lemma UnsyncedRepairIsReachable(cfg: Config) returns (run: seq<State>)
    requires cfg.Valid() && |cfg.book| > 0
    ensures Run(cfg, run) && Initial(cfg, run[0])
    ensures Last(run).proc.Ready? && FallsBack(Last(run).disk, Last(run).proc.current)
  {
    var zero := InitRecord(cfg.bookId);
    var one := IntentRecord(cfg.bookId, 1, 0);
    var d0 := Disk(Cell(Holds(zero), Holds(zero)), Cell(Holds(zero), Holds(zero)));
    var d1 := d0.Put(A, Cell(Holds(one), Holds(zero)));
    var d2 := d1.Put(B, Cell(Holds(one), Holds(zero)));
    run := [State(d0, Down, []), State(d0, Ready(zero), []), State(d0, Persist(one, 0, false, 0), []),
            State(d1, Persist(one, 0, false, 1), []), State(d1, Down, []), State(d1, Repair(one, B, 0), []),
            State(d2, Repair(one, B, 1), []), State(d2, Down, []), State(d2, Ready(one), [])];
    assert BeginStep(cfg, run[1], run[2], 1);
    assert OpenStep(cfg, run[0], run[1]) && OpenStep(cfg, run[4], run[5]) && OpenStep(cfg, run[7], run[8]);
    assert WriteStep(run[2], run[3]) && WriteStep(run[5], run[6]);
    assert KillStep(run[3], run[4]) && KillStep(run[6], run[7]);
  }
}
