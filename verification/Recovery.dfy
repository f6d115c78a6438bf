/** Start-up recovery over the two anchor stores, and its agreement with what the allocator decides on open. */
module Recovery {
  import opened Bytes
  import opened AnchorSpec
  import opened AllocatorRuns

  datatype RecoveryWarning = StaleCopyRepaired(copy: AnchorCopy) | DualRollbackUndetectable

  datatype QuarantineReason =
    | AnchorAInvalid
    | AnchorBInvalid
    | BothUnreadableAnchors
    | Unproven(reason: UnsafeReason)
    | BookAnchorMismatch

  datatype RecoveryError =
    | Store
    | Quarantined(copy: Option<AnchorCopy>, reason: QuarantineReason)
    | RollbackBlocked

  datatype RecoveryReport = RecoveryReport(
    adopted: AnchorRecord, repaired: Option<AnchorCopy>, quarantined: seq<AnchorCopy>, warnings: seq<RecoveryWarning>)

  type Reading = Result<AnchorRecord, ReadFailure>

  /** What recovery adopts from the two readings and which copy it must rewrite, or why it refuses. */
  function RecoverChoice(a: Reading, b: Reading, watermark: Option<u64>, verify: AnchorRecord -> bool)
    : Result<(AnchorRecord, Option<AnchorCopy>), RecoveryError>
  {
    var decision := Decide(if a.Ok? then a else Err(Corrupt), if b.Ok? then b else Err(Corrupt));
    match decision
    case QuarantineCorrupt(copy) => Err(Quarantined(Some(copy), if copy == A then AnchorAInvalid else AnchorBInvalid))
    case BothUnreadable => Err(Quarantined(None, BothUnreadableAnchors))
    case CannotProveSafe(reason) => Err(Quarantined(None, Unproven(reason)))
    case Consistent(r) => Accept(r, None, watermark, verify)
    case AdoptHigher(r, stale) => Accept(r, Some(stale), watermark, verify)
  }

  function Accept(r: AnchorRecord, stale: Option<AnchorCopy>, watermark: Option<u64>, verify: AnchorRecord -> bool)
    : Result<(AnchorRecord, Option<AnchorCopy>), RecoveryError>
  {
    if watermark.Some? && r.generation < watermark.value then Err(RollbackBlocked)
    else if r.payload.Commit? && !verify(r) then Err(Quarantined(None, BookAnchorMismatch))
    else Ok((r, stale))
  }

  /** What a copy's bytes read as. */
  function ReadingOf(image: Image): Reading {
    if image.Holds? then Ok(image.record) else Err(Corrupt)
  }

  /** What a full write and sync of `r` can leave in a copy, however far it got. */
  predicate Landed(c: Cell, c': Cell, r: AnchorRecord) {
    c' == c || c' == c.(cached := Torn) || c' == c.(cached := Holds(r)) || c' == Cell(Holds(r), Holds(r))
  }

  /** A store over one copy; if it is not `reliable`, any operation may fail, a write anywhere on its way. */
  class AnchorStore {
    const reliable: bool
    var cell: Cell
    var writes: nat

    constructor (reliable: bool, cell: Cell)
      ensures this.reliable == reliable && this.cell == cell && writes == 0
    {
      this.reliable, this.cell, writes := reliable, cell, 0;
    }

    function Record(): Reading
      reads this
    {
      ReadingOf(cell.cached)
    }

    method ReadVerified() returns (r: Reading)
      ensures r.Ok? ==> r == Record()
      ensures reliable ==> r == Record()
    {
      var fails: bool := *;
      r := if fails && !reliable then Err(Unreadable) else Record();
    }

    method WriteFullAndSync(r: AnchorRecord) returns (ok: bool)
      modifies this
      ensures Landed(old(cell), cell, r)
      ensures ok ==> cell == Cell(Holds(r), Holds(r))
      ensures writes == old(writes) + 1
      ensures reliable ==> ok
    {
      var writeFails: bool := *;
      var syncFails: bool := *;
      var left: Image := *;
      writes := writes + 1;
      if !reliable && writeFails {
        cell := cell.(cached := if left == Holds(r) || left == Torn then left else cell.cached);
        return false;
      }
      cell := cell.(cached := Holds(r));
      var flushed: bool := *;
      if reliable || !syncFails || flushed {
        cell := cell.(durable := cell.cached);
      }
      ok := reliable || !syncFails;
    }

    method SyncParentIfCreated() returns (ok: bool)
      ensures reliable ==> ok
    {
      var fails: bool := *;
      ok := reliable || !fails;
    }

    /** The complete repair: write, sync the parent, read back. */
    method Repair(adopted: AnchorRecord) returns (ok: bool)
      modifies this
      ensures Landed(old(cell), cell, adopted)
      ensures writes == old(writes) + 1
      ensures ok ==> cell == Cell(Holds(adopted), Holds(adopted))
      ensures reliable ==> ok
    {
      ok := WriteFullAndSync(adopted);
      if !ok {
        return;
      }
      ok := SyncParentIfCreated();
      if !ok {
        return;
      }
      var back := ReadVerified();
      ok := back == Ok(adopted);
    }
  }

  /** What a recovery, finished, failed or cut short, can make of the two copies. */
  predicate Recovers(d: Disk, d': Disk) {
    var choice := RecoverChoice(ReadingOf(d.a.cached), ReadingOf(d.b.cached), None, _ => true);
    d' == d ||
    (choice.Ok? && choice.value.1.Some? &&
     var (top, stale) := (choice.value.0, choice.value.1.value);
     d'.At(Other(stale)) == d.At(Other(stale)) && Landed(d.At(stale), d'.At(stale), top))
  }

  /**
   * On success both stores hold the adopted record, and at most the stale one was written, once. Any refusal
   * that is not a store failure leaves both stores as they were. Reliable stores give exactly the choice.
   */
  method RecoverWithOptions(a: AnchorStore, b: AnchorStore, watermark: Option<u64>, verify: AnchorRecord -> bool)
    returns (r: Result<RecoveryReport, RecoveryError>)
    requires a != b
    modifies a, b
    ensures Recovers(old(Disk(a.cell, b.cell)), Disk(a.cell, b.cell))
    ensures r.Err? && r.error != Store ==> unchanged(a) && unchanged(b)
    ensures r.Ok? ==>
              var choice := RecoverChoice(old(a.Record()), old(b.Record()), watermark, verify);
              && choice == Ok((r.value.adopted, r.value.repaired))
              && a.Record() == b.Record() == Ok(r.value.adopted)
              && a.writes == old(a.writes) + (if r.value.repaired == Some(A) then 1 else 0)
              && b.writes == old(b.writes) + (if r.value.repaired == Some(B) then 1 else 0)
              && (r.value.repaired != Some(A) ==> a.cell == old(a.cell))
              && (r.value.repaired != Some(B) ==> b.cell == old(b.cell))
              && r.value.quarantined == []
              && r.value.warnings == [DualRollbackUndetectable] +
                 (if r.value.repaired.Some? then [StaleCopyRepaired(r.value.repaired.value)] else [])
    ensures a.reliable && b.reliable ==>
              var choice := RecoverChoice(old(a.Record()), old(b.Record()), watermark, verify);
              if choice.Ok? then r.Ok? else r.Err? && r.error == choice.error
  {
    var ra := a.ReadVerified();
    var rb := b.ReadVerified();
    var choice := RecoverChoice(ra, rb, watermark, verify);
    if choice.Err? {
      return Err(choice.error);
    }
    var (adopted, stale) := choice.value;
    var warnings := [DualRollbackUndetectable];
    if stale.Some? {
      var ok: bool;
      if stale.value == A {
        ok := a.Repair(adopted);
      } else {
        ok := b.Repair(adopted);
      }
      if !ok {
        return Err(Store);
      }
      warnings := warnings + [StaleCopyRepaired(stale.value)];
    }
    r := Ok(RecoveryReport(adopted, stale, [], warnings));
  }

  // ---- what the choice means ----

  /** Recovery succeeds exactly on two readable, comparable copies that pass the two filters. */
  lemma RecoverySucceedsIff(a: Reading, b: Reading, watermark: Option<u64>, verify: AnchorRecord -> bool)
    ensures var choice := RecoverChoice(a, b, watermark, verify);
            choice.Ok? <==>
            && a.Ok? && b.Ok? && a.value.bookId == b.value.bookId
            && (AtMost(a.value, b.value) || AtMost(b.value, a.value))
            && var top := if AtMost(a.value, b.value) then b.value else a.value;
               (watermark.Some? ==> top.generation >= watermark.value) && (top.payload.Commit? ==> verify(top))
  {
    if a.Ok? && b.Ok? && a.value.bookId == b.value.bookId {
      DecideCharacterized(a.value, b.value);
    }
  }

  /** Why recovery refuses: which copy it quarantines, or what the two copies, the watermark or the book disprove. */
  lemma RecoveryRefuses(a: Reading, b: Reading, watermark: Option<u64>, verify: AnchorRecord -> bool)
    ensures var choice := RecoverChoice(a, b, watermark, verify);
            var comparable := a.Ok? && b.Ok? && a.value.bookId == b.value.bookId
                              && (AtMost(a.value, b.value) || AtMost(b.value, a.value));
            && (choice == Err(Quarantined(Some(A), AnchorAInvalid)) <==> a.Err? && b.Ok?)
            && (choice == Err(Quarantined(Some(B), AnchorBInvalid)) <==> a.Ok? && b.Err?)
            && (choice == Err(Quarantined(None, Unproven(BothAnchorsInvalid))) <==> a.Err? && b.Err?)
            && (choice == Err(Quarantined(None, Unproven(BookIdMismatch))) <==> a.Ok? && b.Ok? && a.value.bookId != b.value.bookId)
            && (choice == Err(Quarantined(None, Unproven(SameOrderDifferentBytes))) <==>
                a.Ok? && b.Ok? && a.value.bookId == b.value.bookId && a.value != b.value && StateCmp(a.value, b.value) == Equal)
            && (choice == Err(Quarantined(None, Unproven(OrderContradiction))) <==>
                a.Ok? && b.Ok? && a.value.bookId == b.value.bookId && !comparable && StateCmp(a.value, b.value) != Equal)
            && (comparable ==>
                  var top := if AtMost(a.value, b.value) then b.value else a.value;
                  var rolledBack := watermark.Some? && top.generation < watermark.value;
                  && (choice == Err(RollbackBlocked) <==> rolledBack)
                  && (choice == Err(Quarantined(None, BookAnchorMismatch)) <==> !rolledBack && top.payload.Commit? && !verify(top)))
  {
    if a.Ok? && b.Ok? && a.value.bookId == b.value.bookId {
      DecideCharacterized(a.value, b.value);
    }
  }

  /** The adopted record is one of the two and is behind neither, in order or in pointer. */
  lemma AdoptedIsHighest(a: Reading, b: Reading, watermark: Option<u64>, verify: AnchorRecord -> bool)
    requires RecoverChoice(a, b, watermark, verify).Ok?
    ensures var (r, stale) := RecoverChoice(a, b, watermark, verify).value;
            && AtMost(a.value, r) && AtMost(b.value, r) && (r == a.value || r == b.value)
            && a.value.next <= r.next && b.value.next <= r.next
            && (stale == Some(A) <==> Below(a.value, b.value)) && (stale == Some(B) <==> Below(b.value, a.value))
  {
    DecideCharacterized(a.value, b.value);
  }

  function Seen(a: Reading): Image {
    if a.Ok? then Holds(a.value) else Torn
  }

  /** The two readings after recovery without a watermark and with a verifier that accepts everything. */
  function Recovered(a: Reading, b: Reading): (Reading, Reading) {
    match RecoverChoice(a, b, None, _ => true)
    case Ok((r, Some(A))) => (Ok(r), b)
    case Ok((r, Some(B))) => (a, Ok(r))
    case _ => (a, b)
  }

  /** Recovering first changes nothing for the allocator: the same state is adopted, or the same refusal made. */
  lemma RecoverThenOpenIsOpen(cfg: Config, a: Reading, b: Reading)
    ensures var (a', b') := Recovered(a, b);
            match OpenChoice(cfg, Seen(a), Seen(b))
            case Ok((r, _)) => OpenChoice(cfg, Seen(a'), Seen(b')) == Ok((r, None))
            case Err(e) => OpenChoice(cfg, Seen(a'), Seen(b')) == Err(e)
  {
    if a.Ok? && b.Ok? && a.value.bookId == b.value.bookId {
      DecideCharacterized(a.value, b.value);
    }
  }

  /** A second recovery finds two equal copies, adopts the same record and rewrites nothing. */
  lemma SecondRecoveryWritesNothing(a: Reading, b: Reading)
    requires RecoverChoice(a, b, None, _ => true).Ok?
    ensures var (a', b') := Recovered(a, b);
            && a' == b' == Ok(RecoverChoice(a, b, None, _ => true).value.0)
            && RecoverChoice(a', b', None, _ => true) == Ok((RecoverChoice(a, b, None, _ => true).value.0, None))
  {
    DecideCharacterized(a.value, b.value);
  }

  /** In every state the allocator can leave behind, recovery succeeds exactly when neither copy is torn. */
  lemma RecoveryOfReachableStates(cfg: Config, s: State, a: Reading, b: Reading)
    requires Inv(cfg, s) && s.disk.a.cached == Seen(a) && s.disk.b.cached == Seen(b)
    ensures RecoverChoice(a, b, None, _ => true).Ok? <==> BothCached(s.disk)
    ensures BothCached(s.disk) ==>
              forall h :: h in s.handed ==> h < RecoverChoice(a, b, None, _ => true).value.0.next
  {
    if BothCached(s.disk) {
      assert InDisk(s.disk, a.value) && InDisk(s.disk, b.value);
      DecideCharacterized(a.value, b.value);
    }
  }

  // ---- recovery between starts ----

  lemma WriteLands(s: State, copy: AnchorCopy, top: AnchorRecord, image: Image) returns (s': State)
    requires s.proc == Repair(top, copy, 0) && (image == Torn || image == Holds(top) || image == s.disk.At(copy).cached)
    ensures s' == s.(disk := s.disk.Put(copy, s.disk.At(copy).(cached := image)), proc := Halted) && WriteStep(s, s')
  {
    s' := s.(disk := s.disk.Put(copy, s.disk.At(copy).(cached := image)), proc := Halted);
    assert s.disk.Put(copy, s.disk.At(copy)) == s.disk;
  }

  /**
   * From any state the allocator can leave, whatever a recovery does to the disk is something a start and a crash can
   * do: it is a run of the machine, ending down, with nothing handed out.
   */
  lemma RecoveryIsARun(cfg: Config, s: State, d': Disk) returns (run: seq<State>)
    requires Inv(cfg, s) && s.proc.Down? && Recovers(s.disk, d')
    ensures Run(cfg, run) && run[0] == s && Last(run) == s.(disk := d')
  {
    if d' == s.disk {
      run := [s];
    } else {
      var choice := RepairOnOpen(cfg, s);
      var top, copy := choice.0, choice.1.value;
      var cell, cell' := s.disk.At(copy), d'.At(copy);
      var s1 := s.(proc := Repair(top, copy, 0));
      assert OpenStep(cfg, s, s1) && d' == s.disk.Put(copy, cell');
      if cell' == Cell(Holds(top), Holds(top)) {
        var s2 := s1.(disk := s.disk.Put(copy, cell.(cached := Holds(top))), proc := Repair(top, copy, 1));
        var s3 := s2.(disk := d', proc := Repair(top, copy, 2));
        var s4 := s3.(proc := Down);
        assert WriteStep(s1, s2) && SyncStep(s2, s3) && KillStep(s3, s4);
        run := [s, s1, s2, s3, s4];
      } else {
        var s2 := WriteLands(s1, copy, top, cell'.cached);
        var s3 := s2.(proc := Down);
        assert KillStep(s2, s3);
        run := [s, s1, s2, s3];
      }
    }
  }

  /** Where recovery repairs, opening would repair the same copy with the same record. */
  lemma RepairOnOpen(cfg: Config, s: State) returns (choice: (AnchorRecord, Option<AnchorCopy>))
    requires Inv(cfg, s)
    requires RecoverChoice(ReadingOf(s.disk.a.cached), ReadingOf(s.disk.b.cached), None, _ => true).Ok?
    ensures RecoverChoice(ReadingOf(s.disk.a.cached), ReadingOf(s.disk.b.cached), None, _ => true) == Ok(choice)
    ensures OpenChoice(cfg, s.disk.a.cached, s.disk.b.cached) == Ok(choice)
  {
    choice := RecoverChoice(ReadingOf(s.disk.a.cached), ReadingOf(s.disk.b.cached), None, _ => true).value;
    RecoveryOfReachableStates(cfg, s, ReadingOf(s.disk.a.cached), ReadingOf(s.disk.b.cached));
    UntornCrashStatesReopen(cfg, s);
    DecideCharacterized(s.disk.a.cached.record, s.disk.b.cached.record);
  }

  /** The allocator stopped, a recovery ran, to its end or not. */
  predicate RecoverStep(s: State, s': State) {
    s.proc.Down? && s' == s.(disk := s'.disk) && Recovers(s.disk, s'.disk)
  }

  lemma RecoverKeepsInv(cfg: Config, s: State, s': State)
    requires Inv(cfg, s) && RecoverStep(s, s')
    ensures Inv(cfg, s')
  {
    hide Inv, Run, Recovers;
    var run := RecoveryIsARun(cfg, s, s'.disk);
    RunIsNotEmpty(cfg, run);
    RunKeepsInv(cfg, run, |run| - 1);
  }

  lemma RunIsNotEmpty(cfg: Config, run: seq<State>)
    requires Run(cfg, run)
    ensures |run| > 0
  {
  }

  ghost predicate RunWithRecovery(cfg: Config, run: seq<State>) {
    |run| > 0 &&
    forall i :: 0 <= i < |run| - 1 ==> Next(cfg, run[i], run[i + 1]) || RecoverStep(run[i], run[i + 1])
  }

  lemma {:induction false} RunWithRecoveryKeepsInv(cfg: Config, run: seq<State>, i: nat)
    requires RunWithRecovery(cfg, run) && Inv(cfg, run[0]) && i < |run|
    ensures Inv(cfg, run[i])
  {
    hide Inv, Next, RecoverStep;
    if i > 0 {
      RunWithRecoveryKeepsInv(cfg, run, i - 1);
      if Next(cfg, run[i - 1], run[i]) {
        NextKeepsInv(cfg, run[i - 1], run[i]);
      } else {
        RecoverKeepsInv(cfg, run[i - 1], run[i]);
      }
    }
  }

  /** Recoveries between the starts, finished or crashed anywhere, never bring a segment back. */
  lemma RecoveryNeverReusesASegment(cfg: Config, run: seq<State>, i: nat)
    requires cfg.Valid() && RunWithRecovery(cfg, run) && Initial(cfg, run[0]) && i < |run|
    ensures Increasing(run[i].handed)
    ensures OracleAccepts(0, {}, run[i].handed)
  {
    InitialInv(cfg, run[0]);
    RunWithRecoveryKeepsInv(cfg, run, i);
    OracleAcceptsIncreasing(0, {}, run[i].handed);
  }
}
