/**
 * The fail-to-waste allocator over two anchor files. Every method extends a ghost run of the machine in
 * `AllocatorRuns.dfy` by one state per disk operation, so a crash at any boundary inside a method is a
 * crash of that machine, and its safety theorems apply to every history of these objects.
 */
module Allocator {
  import opened Bytes
  import opened AnchorSpec
  import opened AllocatorRuns
  import opened Book

  datatype MediaError = MediaIo | Persistence | NoSpace | ShortWrite

  datatype Boundary =
    | IntentAWriteStart | IntentAWriteComplete | IntentAFsyncStart | IntentAFsyncReturn
    | IntentBWriteStart | IntentBWriteComplete | IntentBFsyncStart | IntentBFsyncReturn
    | SegmentPread
    | FinalAWriteStart | FinalAWriteComplete | FinalAFsyncStart | FinalAFsyncReturn
    | FinalBWriteStart | FinalBWriteComplete | FinalBFsyncStart | FinalBFsyncReturn

  function ImageOf(sha: Hash, bytes: seq<byte>): Image {
    match DecodeAndVerify(sha, bytes)
    case Ok(r) => Holds(r)
    case Err(_) => Torn
  }

  datatype File = File(cached: seq<byte>, durable: seq<byte>) {
    function Cell(sha: Hash): AllocatorRuns.Cell {
      AllocatorRuns.Cell(ImageOf(sha, cached), ImageOf(sha, durable))
    }
  }

  /** Two files whose operations may fail unless they are reliable, and whose failed writes may leave undecodable bytes. */
  class AnchorMedia {
    const sha: Hash
    const reliable: bool
    var a: File
    var b: File

    constructor (sha: Hash, a: File, b: File, reliable: bool)
      ensures this.sha == sha && this.a == a && this.b == b && this.reliable == reliable
    {
      this.sha, this.a, this.b, this.reliable := sha, a, b, reliable;
    }

    function FileOf(copy: AnchorCopy): File
      reads this
    {
      if copy == A then a else b
    }

    function Disk(): AllocatorRuns.Disk
      reads this
    {
      AllocatorRuns.Disk(a.Cell(sha), b.Cell(sha))
    }

    method Read(copy: AnchorCopy) returns (r: Result<seq<byte>, MediaError>)
      ensures r.Ok? ==> r.value == FileOf(copy).cached
      ensures reliable ==> r.Ok?
    {
      var fails: bool := *;
      r := if fails && !reliable then Err(MediaIo) else if copy == A then Ok(a.cached) else Ok(b.cached);
    }

    method SetCached(copy: AnchorCopy, bytes: seq<byte>)
      modifies this
      ensures FileOf(copy) == old(FileOf(copy)).(cached := bytes)
      ensures FileOf(Other(copy)) == old(FileOf(Other(copy)))
    {
      if copy == A {
        a := a.(cached := bytes);
      } else {
        b := b.(cached := bytes);
      }
    }

    method Write(copy: AnchorCopy, bytes: seq<byte>) returns (r: Result<(), MediaError>)
      modifies this
      ensures FileOf(Other(copy)) == old(FileOf(Other(copy)))
      ensures FileOf(copy).durable == old(FileOf(copy).durable)
      ensures r.Ok? ==> FileOf(copy).cached == bytes
      ensures r.Err? ==> || FileOf(copy).cached == old(FileOf(copy).cached)
                         || FileOf(copy).cached == bytes
                         || ImageOf(sha, FileOf(copy).cached) == Torn
      ensures reliable ==> r.Ok?
    {
      var fails: bool := *;
      var untouched: bool := *;
      var left: seq<byte> := *;
      var error: MediaError := *;
      if !fails || reliable {
        SetCached(copy, bytes);
        return Ok(());
      }
      if !untouched && (left == bytes || ImageOf(sha, left) == Torn) {
        SetCached(copy, left);
      }
      r := Err(error);
    }

    method Sync(copy: AnchorCopy) returns (r: Result<(), MediaError>)
      modifies this
      ensures FileOf(Other(copy)) == old(FileOf(Other(copy)))
      ensures FileOf(copy).cached == old(FileOf(copy).cached)
      ensures FileOf(copy).durable == FileOf(copy).cached ||
              (r.Err? && FileOf(copy).durable == old(FileOf(copy).durable))
      ensures reliable ==> r.Ok?
    {
      var fails: bool := *;
      var flushed: bool := *;
      fails := fails && !reliable;
      if !fails || flushed {
        if copy == A {
          a := a.(durable := a.cached);
        } else {
          b := b.(durable := b.cached);
        }
      }
      r := if fails then Err(Persistence) else Ok(());
    }

    /** A named point at which a test may inject a failure or a kill. */
    method Reach(point: Boundary) returns (r: Result<(), MediaError>)
      ensures reliable ==> r.Ok?
    {
      var fails: bool := *;
      var error: MediaError := *;
      r := if fails && !reliable then Err(error) else Ok(());
    }
  }

  class SegmentReader {
    const book: seq<Bytes64>
    const reliable: bool

    constructor (book: seq<Bytes64>, reliable: bool)
      ensures this.book == book && this.reliable == reliable
    {
      this.book, this.reliable := book, reliable;
    }

    method SegmentCount() returns (n: nat)
      ensures n == |book|
    {
      n := |book|;
    }

    method Read(index: nat) returns (r: Result<Bytes64, MediaError>)
      ensures r.Ok? ==> index < |book| && r.value == book[index]
      ensures reliable && index < |book| ==> r.Ok?
    {
      var fails: bool := *;
      r := if (fails && !reliable) || index >= |book| then Err(MediaIo) else Ok(book[index]);
    }
  }

  method ReadRecord(media: AnchorMedia, copy: AnchorCopy) returns (r: Result<AnchorRecord, IssueError>)
    ensures r.Ok? ==> ImageOf(media.sha, media.FileOf(copy).cached) == Holds(r.value)
    ensures r.Err? ==> r.error == AnchorCorrupt
    ensures media.reliable ==> (r.Ok? <==> ImageOf(media.sha, media.FileOf(copy).cached).Holds?)
  {
    hide DecodeAndVerify, Encoded;
    var bytes := media.Read(copy);
    if bytes.Err? {
      return Err(AnchorCorrupt);
    }
    var decoded := DecodeAndVerify(media.sha, bytes.value);
    r := if decoded.Err? then Err(AnchorCorrupt) else Ok(decoded.value);
  }

  function Booted(r: AnchorRecord, stale: Option<AnchorCopy>): Proc {
    if stale.None? then Ready(r) else Repair(r, stale.value, 0)
  }

  lemma Extend(cfg: Config, run: seq<State>, s: State)
    requires Run(cfg, run) && Next(cfg, Last(run), s)
    ensures Run(cfg, run + [s])
  {
  }

  lemma OpenExtends(cfg: Config, run: seq<State>, current: AnchorRecord, stale: Option<AnchorCopy>)
    requires Run(cfg, run) && Last(run).proc.Down?
    requires OpenChoice(cfg, Last(run).disk.a.cached, Last(run).disk.b.cached) == Ok((current, stale))
    ensures |run| > 0 && Run(cfg, run + [Last(run).(proc := Booted(current, stale))])
  {
    hide OpenChoice;
    var booted := Last(run).(proc := Booted(current, stale));
    assert OpenStep(cfg, Last(run), booted);
    Extend(cfg, run, booted);
  }

  lemma RangeOfOne(i: nat)
    ensures Range(i, i + 1) == [i]
  {
  }

  /** What the bytes of a good record look like on the disk. */
  lemma EncodedImage(sha: Hash, r: AnchorRecord)
    requires Canonical(r)
    ensures ImageOf(sha, Encoded(sha, r)) == Holds(r)
  {
    hide Encoded;
    DecodeOfEncoded(sha, r);
  }

  /** One write followed by one sync: the two disk operations that persist a record in one copy. */
  method PersistOne(media: AnchorMedia, copy: AnchorCopy, record: AnchorRecord, ghost cfg: Config, ghost past: seq<State>)
    returns (r: Result<(), MediaError>, ghost trace: seq<State>)
    requires media.sha == cfg.sha && Run(cfg, past) && Last(past).disk == media.Disk() && Canonical(record)
    requires WriteTarget(Last(past).proc) == Some((copy, record))
    modifies media
    ensures past <= trace && Run(cfg, trace) && Last(trace).disk == media.Disk()
    ensures Last(trace).handed == Last(past).handed
    ensures Last(trace).proc == if r.Ok? then Advance(Advance(Last(past).proc)) else Halted
    ensures media.reliable ==> r.Ok?
  {
    hide DecodeAndVerify, Encoded;
    trace := past;
    var bytes := EncodeRecord(media.sha, record, []);
    EncodedImage(media.sha, record);
    assert bytes == Encoded(media.sha, record);
    ghost var before := Last(trace);
    r := media.Write(copy, bytes);
    ghost var written := before.(disk := media.Disk(), proc := if r.Ok? then Advance(before.proc) else Halted);
    assert WriteStep(before, written);
    Extend(cfg, trace, written);
    trace := trace + [written];
    if r.Err? {
      return;
    }
    r := media.Sync(copy);
    ghost var synced := written.(disk := media.Disk(), proc := if r.Ok? then Advance(written.proc) else Halted);
    assert SyncStep(written, synced);
    Extend(cfg, trace, synced);
    trace := trace + [synced];
  }

  class TransactionCore {
    const media: AnchorMedia
    const reader: SegmentReader
    const sha: Hash
    const bookId: Bytes16
    var current: AnchorRecord
    var halted: bool
    ghost var trace: seq<State>

    constructor (media: AnchorMedia, reader: SegmentReader, bookId: Bytes16, current: AnchorRecord,
                 ghost trace: seq<State>)
      ensures this.media == media && this.reader == reader && this.sha == media.sha && this.bookId == bookId
      ensures this.current == current && !halted && this.trace == trace
    {
      this.media, this.reader, this.sha, this.bookId := media, reader, media.sha, bookId;
      this.current, this.halted, this.trace := current, false, trace;
    }

    ghost function Cfg(): Config {
      Config(sha, bookId, reader.book)
    }

    /** The run so far is genuine and ends with the media as they are. */
    ghost predicate Traced()
      reads this, media
    {
      && Cfg().Valid() && media.sha == sha
      && Run(Cfg(), trace) && Inv(Cfg(), trace[0]) && Last(trace).disk == media.Disk()
    }

    ghost predicate Valid()
      reads this, media
    {
      Traced() && Last(trace).proc == if halted then Halted else Ready(current)
    }

    /** Nothing stands in the way of `n` more segments. */
    ghost predicate CanIssue(n: nat)
      reads this
    {
      && media.reliable && reader.reliable && !halted
      && current.next + n <= |reader.book| && current.generation + n <= U64_MAX
    }

    /** Whatever was called and whatever failed, here or in a process before, no segment was handed out twice. */
    lemma HandsOutInOrder()
      requires Valid()
      ensures Increasing(Handed()) && OracleAccepts(0, {}, Handed())
    {
      hide DecodeAndVerify;
      RunKeepsInv(Cfg(), trace, |trace| - 1);
      OracleAcceptsIncreasing(0, {}, Handed());
    }

    /** Segments handed out, over this process and all before it. */
    ghost function Handed(): seq<nat>
      reads this
    {
      if |trace| == 0 then [] else Last(trace).handed
    }

    ghost method Take(s: State)
      requires Cfg().Valid() && media.sha == sha
      requires Run(Cfg(), trace) && Inv(Cfg(), trace[0]) && Next(Cfg(), Last(trace), s)
      requires s.disk == media.Disk()
      modifies this`trace
      ensures Traced() && trace == old(trace) + [s]
    {
      Extend(Cfg(), trace, s);
      trace := trace + [s];
    }

    ghost method Halt()
      requires Traced() && !Last(trace).proc.Down?
      modifies this`trace
      ensures Traced() && old(trace) <= trace && Handed() == old(Handed()) && Last(trace).proc.Halted?
    {
      Take(Last(trace).(proc := Halted));
    }

    /** A body could not be read: the reservation is lost, the allocator goes on. */
    ghost method Waste()
      requires Traced() && !halted && Last(trace).proc.Fetch? && Last(trace).proc.intent == current
      modifies this`trace
      ensures Valid() && old(trace) <= trace && Handed() == old(Handed())
    {
      Take(Last(trace).(proc := Ready(current)));
    }

    /** Passes a boundary, or stops the process there. */
    method Pass(point: Boundary) returns (ok: bool)
      requires Traced() && !Last(trace).proc.Down?
      modifies this`trace
      ensures Traced() && old(trace) <= trace && Handed() == old(Handed())
      ensures Last(trace).proc == if ok then old(Last(trace).proc) else Halted
      ensures media.reliable ==> ok
    {
      hide DecodeAndVerify;
      var r := media.Reach(point);
      ok := r.Ok?;
      if !ok {
        Halt();
      }
    }

    method WriteCopy(copy: AnchorCopy, record: AnchorRecord) returns (ok: bool)
      requires Traced() && Canonical(record) && WriteTarget(Last(trace).proc) == Some((copy, record))
      modifies this`trace, media
      ensures Traced() && old(trace) <= trace && Handed() == old(Handed())
      ensures Last(trace).proc == if ok then Advance(old(Last(trace).proc)) else Halted
      ensures media.reliable ==> ok
    {
      hide DecodeAndVerify, Encoded;
      var bytes := EncodeRecord(sha, record, []);
      EncodedImage(sha, record);
      assert bytes == Encoded(sha, record);
      var r := media.Write(copy, bytes);
      ok := r.Ok?;
      ghost var before := Last(trace);
      ghost var after := before.(disk := media.Disk(), proc := if ok then Advance(before.proc) else Halted);
      assert WriteStep(before, after);
      Take(after);
    }

    method SyncCopy(copy: AnchorCopy) returns (ok: bool)
      requires Traced() && SyncTarget(Last(trace).proc) == Some(copy)
      modifies this`trace, media
      ensures Traced() && old(trace) <= trace && Handed() == old(Handed())
      ensures Last(trace).proc == if ok then Advance(old(Last(trace).proc)) else Halted
      ensures media.reliable ==> ok
    {
      hide DecodeAndVerify;
      var r := media.Sync(copy);
      ok := r.Ok?;
      ghost var before := Last(trace);
      ghost var after := before.(disk := media.Disk(), proc := if ok then Advance(before.proc) else Halted);
      assert SyncStep(before, after);
      Take(after);
    }

    method PersistCopy(copy: AnchorCopy, points: (Boundary, Boundary, Boundary, Boundary), record: AnchorRecord)
      returns (ok: bool)
      requires Traced() && Canonical(record) && WriteTarget(Last(trace).proc) == Some((copy, record))
      requires SyncTarget(Advance(Last(trace).proc)) == Some(copy)
      modifies this`trace, media
      ensures Traced() && old(trace) <= trace && Handed() == old(Handed())
      ensures Last(trace).proc == if ok then Advance(Advance(old(Last(trace).proc))) else Halted
      ensures media.reliable ==> ok
    {
      hide DecodeAndVerify, Run, Inv, Next;
      ok := Pass(points.0);
      if !ok {
        return;
      }
      ok := WriteCopy(copy, record);
      if !ok {
        return;
      }
      ok := Pass(points.1);
      if !ok {
        return;
      }
      ok := Pass(points.2);
      if !ok {
        return;
      }
      ok := SyncCopy(copy);
      if !ok {
        return;
      }
      ok := Pass(points.3);
    }

    method PersistPair(record: AnchorRecord, intent: bool, ghost base: nat) returns (ok: bool)
      requires Traced() && Canonical(record)
      requires Last(trace).proc == Persist(record, base, !intent, 0)
      modifies this`trace, media
      ensures Traced() && old(trace) <= trace && Handed() == old(Handed())
      ensures Last(trace).proc == if ok then Persist(record, base, !intent, 4) else Halted
      ensures media.reliable ==> ok
    {
      hide DecodeAndVerify;
      var copies := [A, B];
      var points :=
        if intent then
          [(IntentAWriteStart, IntentAWriteComplete, IntentAFsyncStart, IntentAFsyncReturn),
           (IntentBWriteStart, IntentBWriteComplete, IntentBFsyncStart, IntentBFsyncReturn)]
        else
          [(FinalAWriteStart, FinalAWriteComplete, FinalAFsyncStart, FinalAFsyncReturn),
           (FinalBWriteStart, FinalBWriteComplete, FinalBFsyncStart, FinalBFsyncReturn)];
      ok := true;
      for k := 0 to |copies|
        invariant ok && Traced() && old(trace) <= trace && Handed() == old(Handed())
        invariant Last(trace).proc == Persist(record, base, !intent, 2 * k)
      {
        ok := PersistCopy(copies[k], points[k], record);
        if !ok {
          return;
        }
      }
    }

    method Issue() returns (r: Result<Bytes64, IssueError>)
      requires Valid()
      modifies this, media
      ensures Valid() && old(trace) <= trace
      ensures r.Ok? ==>
                && old(current.next) < |reader.book| && r.value == reader.book[old(current.next)]
                && current.next == old(current.next) + 1 && current.generation == old(current.generation) + 1
                && Handed() == old(Handed()) + [old(current.next)]
                && Everywhere(media.Disk(), current) && !halted
      ensures r.Err? ==> Handed() == old(Handed())
      ensures r.Err? ==> r.error.Exhausted? || r.error == Io || r.error == PersistenceUncertain
      ensures old(halted) ==> r == Err(PersistenceUncertain) && trace == old(trace)
      ensures r.Err? && r.error.Exhausted? <==> !old(halted) && old(current.next) >= |reader.book|
      ensures r.Err? && r.error.Exhausted? ==>
                r.error.next == current.next && trace == old(trace) && unchanged(media) && current == old(current)
      ensures r == Err(Io) ==> !halted && current.next == old(current.next) + 1 && Everywhere(media.Disk(), current)
      ensures r == Err(PersistenceUncertain) ==> halted
      ensures media.reliable && reader.reliable ==>
                (r.Ok? <==> !old(halted) && old(current.next) < |reader.book| && old(current.generation) < U64_MAX)
    {
      hide DecodeAndVerify, Run, Inv, Next, Everywhere, Range;
      RangeOfOne(current.next);
      if halted {
        return Err(PersistenceUncertain);
      }
      var index := current.next;
      var count := reader.SegmentCount();
      if index >= count {
        return Err(Exhausted(index));
      }
      if current.generation == U64_MAX {
        halted := true;
        Halt();
        return Err(PersistenceUncertain);
      }
      var ok := Reserve(1);
      if !ok {
        return Err(PersistenceUncertain);
      }
      var reached := media.Reach(SegmentPread);
      if reached.Err? {
        Waste();
        return Err(Io);
      }
      var body := ReadBody(index);
      if body.Err? {
        Waste();
        return Err(Io);
      }
      ok := Finish(body.value, index);
      if !ok {
        return Err(PersistenceUncertain);
      }
      r := Ok(body.value);
    }

    /** Composes and persists the intent for the next `n` segments; memory advances first and never moves back. */
    method Reserve(n: nat) returns (ok: bool)
      requires Valid() && !halted && 0 < n && current.next + n <= |reader.book| && current.generation < U64_MAX
      modifies this, media
      ensures Traced() && old(trace) <= trace && Handed() == old(Handed())
      ensures current == IntentRecord(bookId, old(current.generation) + 1, old(current.next) + n - 1)
      ensures halted == !ok
      ensures Last(trace).proc == if ok then Fetch(current, old(current.next)) else Halted
      ensures ok ==> Everywhere(media.Disk(), current)
      ensures media.reliable ==> ok
    {
      hide DecodeAndVerify;
      ghost var base := current.next;
      var intent := IntentRecord(bookId, current.generation + 1, current.next + n - 1);
      ghost var begun := Last(trace).(proc := Persist(intent, base, false, 0));
      assert BeginStep(Cfg(), Last(trace), begun, n);
      Take(begun);
      current := intent;
      ok := PersistPair(intent, true, base);
      if !ok {
        halted := true;
        return;
      }
      Take(Last(trace).(proc := Fetch(intent, base)));
      RunKeepsInv(Cfg(), trace, |trace| - 1);
    }

    /** Persists the commit whose hash is that of the last body read, and hands the range out. */
    method Finish(body: Bytes64, ghost base: nat) returns (ok: bool)
      requires Traced() && !halted && Last(trace).proc == Fetch(current, base)
      requires 0 < current.next <= |reader.book| && body == reader.book[current.next - 1]
      modifies this, media
      ensures Valid() && old(trace) <= trace && halted == !ok
      ensures current.next == old(current.next) && current.generation == old(current.generation)
      ensures ok ==> && base <= current.next
                     && Handed() == old(Handed()) + Range(base, current.next)
                     && Everywhere(media.Disk(), current) && current.payload.Commit?
      ensures !ok ==> Handed() == old(Handed())
      ensures media.reliable ==> ok
    {
      hide DecodeAndVerify;
      var commit := CommitRecord(bookId, current.generation, current.next, sha(body));
      ghost var fetched := Last(trace).(proc := Persist(commit, base, true, 0));
      RunKeepsInv(Cfg(), trace, |trace| - 1);
      assert FetchedStep(Cfg(), Last(trace), fetched);
      Take(fetched);
      ok := PersistPair(commit, false, base);
      if !ok {
        halted := true;
        return;
      }
      RunKeepsInv(Cfg(), trace, |trace| - 1);
      ghost var done := Last(trace).(proc := Ready(commit), handed := Handed() + Range(base, commit.next));
      assert HandOutStep(Last(trace), done);
      Take(done);
      current := commit;
    }

    method ReserveRange(n: u64) returns (r: Result<ReservedRange, IssueError>)
      requires Valid()
      modifies this, media
      ensures Valid() && old(trace) <= trace
      ensures r.Ok? ==>
                && old(current.next) + n <= |reader.book| && current.next == old(current.next) + n
                && current.generation == old(current.generation) + 1
                && r.value.base == old(current.next)
                && r.value.bytes == Flat(reader.book[old(current.next)..old(current.next) + n])
                && Handed() == old(Handed()) + Range(old(current.next), current.next)
                && Everywhere(media.Disk(), current) && !halted
      ensures r.Err? ==> Handed() == old(Handed())
      ensures r.Err? ==> r.error.Exhausted? || r.error in {Io, PersistenceUncertain, InvalidRange}
      ensures old(halted) ==> r == Err(PersistenceUncertain) && trace == old(trace)
      ensures r == Err(InvalidRange) <==> !old(halted) && (n == 0 || old(current.next) + n > U64_MAX)
      ensures r.Err? && r.error.Exhausted? <==>
              !old(halted) && 0 < n && |reader.book| < old(current.next) + n <= U64_MAX
      ensures r.Err? && (r.error.Exhausted? || r.error == InvalidRange) ==>
                trace == old(trace) && unchanged(media) && current == old(current)
      ensures r == Err(Io) ==> !halted && current.next == old(current.next) + n && Everywhere(media.Disk(), current)
      ensures r == Err(PersistenceUncertain) ==> halted
      ensures r.Err? && r.error.Exhausted? ==> r.error.next == current.next
      ensures media.reliable && reader.reliable ==>
                (r.Ok? <==> !old(halted) && 0 < n && old(current.next) + n <= |reader.book| && old(current.generation) < U64_MAX)
    {
      hide DecodeAndVerify, Run, Inv, Next, Flat, Range, Everywhere;
      if halted {
        return Err(PersistenceUncertain);
      }
      if n == 0 {
        return Err(InvalidRange);
      }
      var base := current.next;
      if base + n > U64_MAX {
        return Err(InvalidRange);
      }
      var count := reader.SegmentCount();
      if base + n > count {
        return Err(Exhausted(base));
      }
      if current.generation == U64_MAX {
        halted := true;
        Halt();
        return Err(PersistenceUncertain);
      }
      var ok := Reserve(n);
      if !ok {
        return Err(PersistenceUncertain);
      }
      r := FetchRange(base, n);
    }

    /** Reads the bodies reserved, and hands them out once their commit is durable. */
    method FetchRange(base: nat, n: nat) returns (r: Result<ReservedRange, IssueError>)
      requires Traced() && !halted && Last(trace).proc == Fetch(current, base)
      requires 0 < n && current.next == base + n <= |reader.book|
      modifies this, media
      ensures Valid() && old(trace) <= trace
      ensures current.next == old(current.next) && current.generation == old(current.generation)
      ensures r.Ok? ==>
                && r.value == ReservedRange(base, Flat(reader.book[base..base + n]))
                && Handed() == old(Handed()) + Range(base, base + n) && Everywhere(media.Disk(), current) && !halted
      ensures r.Err? ==> Handed() == old(Handed()) && r.error in {Io, PersistenceUncertain}
      ensures r == Err(Io) ==> !halted && unchanged(media) && current == old(current)
      ensures r == Err(PersistenceUncertain) ==> halted
      ensures media.reliable && reader.reliable ==> r.Ok?
    {
      hide DecodeAndVerify, Run, Inv, Next, Flat, Range, Everywhere;
      var reached := media.Reach(SegmentPread);
      if reached.Err? {
        Waste();
        return Err(Io);
      }
      var bodies := ReadBodies(base, n);
      if bodies.Err? {
        Waste();
        return Err(Io);
      }
      var bytes := bodies.value;
      FlatLast(reader.book, base, n);
      var ok := Finish(bytes[|bytes| - 64..], base);
      if !ok {
        return Err(PersistenceUncertain);
      }
      r := Ok(ReservedRange(base, bytes));
    }

    /** One body of the range reserved: both copies then durably point past the whole range. */
    method ReadBody(index: nat) returns (r: Result<Bytes64, MediaError>)
      requires Traced() && Last(trace).proc.Fetch?
      requires Last(trace).proc.base <= index < Last(trace).proc.intent.next
      ensures Everywhere(media.Disk(), Last(trace).proc.intent) && index < Last(trace).proc.intent.next
      ensures r.Ok? ==> index < |reader.book| && r.value == reader.book[index]
      ensures reader.reliable && index < |reader.book| ==> r.Ok?
    {
      hide DecodeAndVerify;
      BodyReadOnlyAfterIntentDurable(Cfg(), trace, |trace| - 1);
      r := reader.Read(index);
    }

    /** The bodies of `[base, base + n)`, one after the other. */
    method ReadBodies(base: nat, n: nat) returns (r: Result<seq<byte>, MediaError>)
      requires 0 < n && Traced() && Last(trace).proc.Fetch?
      requires Last(trace).proc.base == base && Last(trace).proc.intent.next == base + n
      ensures r.Ok? ==> base + n <= |reader.book| && r.value == Flat(reader.book[base..base + n])
      ensures reader.reliable && base + n <= |reader.book| ==> r.Ok?
    {
      hide DecodeAndVerify, Run, Inv, Next, Flat;
      var bytes: seq<byte> := [];
      FlatOfNothing();
      for i := 0 to n
        invariant i > 0 ==> base + i <= |reader.book|
        invariant bytes == if i == 0 then Flat([]) else Flat(reader.book[base..base + i])
      {
        var body := ReadBody(base + i);
        if body.Err? {
          return Err(body.error);
        }
        FlatGrows(reader.book, base, i);
        assert reader.book[base..base] == [];
        bytes := bytes + body.value;
      }
      r := Ok(bytes);
    }
  }

  datatype ReservedRange = ReservedRange(base: nat, bytes: seq<byte>)

  /** Reads both copies, takes the higher and checks it against the book. */
  method ChooseCurrent(media: AnchorMedia, reader: SegmentReader, bookId: Bytes16)
    returns (r: Result<(AnchorRecord, Option<AnchorCopy>), IssueError>)
    requires |reader.book| <= U64_MAX
    ensures var choice := OpenChoice(Config(media.sha, bookId, reader.book), media.Disk().a.cached, media.Disk().b.cached);
            && (r.Ok? ==> choice == r) && (r.Err? ==> r.error == AnchorCorrupt || choice == r)
            && (media.reliable && reader.reliable ==> choice == r)
  {
    hide DecodeAndVerify;
    var readA := ReadRecord(media, A);
    if readA.Err? {
      return Err(readA.error);
    }
    var readB := ReadRecord(media, B);
    if readB.Err? {
      return Err(readB.error);
    }
    var a, b := readA.value, readB.value;
    if a.bookId != bookId || b.bookId != bookId {
      return Err(BookMismatch);
    }
    var current: AnchorRecord;
    var stale: Option<AnchorCopy>;
    match Decide(Ok(a), Ok(b)) {
      case Consistent(record) =>
        current, stale := record, None;
      case AdoptHigher(adopted, copy) =>
        current, stale := adopted, Some(copy);
      case _ =>
        return Err(AnchorCorrupt);
    }
    var count := reader.SegmentCount();
    if current.next > count {
      return Err(AnchorCorrupt);
    }
    if current.payload.Commit? {
      if current.next == 0 {
        return Err(AnchorCorrupt);
      }
      var body := reader.Read(current.next - 1);
      if body.Err? || media.sha(body.value) != current.payload.previousSegmentHash {
        return Err(AnchorCorrupt);
      }
    }
    r := Ok((current, stale));
  }

  /** The record adopted is of this book, points into it, and a commit carries the digest of the segment before. */
  lemma StartableTop(cfg: Config, a: Image, b: Image)
    requires OpenChoice(cfg, a, b).Ok?
    ensures var c := OpenChoice(cfg, a, b).value.0;
            c.bookId == cfg.bookId && c.next <= |cfg.book| && Attested(cfg, c)
  {
    OpenSucceedsIff(cfg, a, b);
  }

  /**
   * Starts the allocator: reads both copies, adopts the higher, checks it against the book and repairs the
   * other copy. A refusal that the copies themselves justify writes nothing.
   */
  method Open(media: AnchorMedia, reader: SegmentReader, bookId: Bytes16, ghost past: seq<State>)
    returns (r: Result<TransactionCore, IssueError>, ghost trace: seq<State>)
    requires var cfg := Config(media.sha, bookId, reader.book);
             cfg.Valid() && Run(cfg, past) && Inv(cfg, past[0])
    requires Last(past).proc.Down? && Last(past).disk == media.Disk()
    modifies media
    ensures past <= trace && Run(Config(media.sha, bookId, reader.book), trace) && Last(trace).disk == media.Disk()
    ensures Last(trace).handed == Last(past).handed
    ensures var cfg := Config(media.sha, bookId, reader.book);
            var (a, b) := (old(media.Disk().a.cached), old(media.Disk().b.cached));
            var choice := OpenChoice(cfg, a, b);
            && (choice.Err? ==> r.Err? && unchanged(media) && trace == past)
            && (r.Ok? ==> choice.Ok? && r.value.current == choice.value.0)
            && (r.Ok? && choice.value.1 == None ==> unchanged(media))
            && (r == Err(BookMismatch) ==> choice == Err(BookMismatch))
            && (!Startable(cfg, a, b) ==> r.Err? && unchanged(media))
            && (a.Holds? && b.Holds? && !Attested(cfg, Higher(a.record, b.record)) ==> r.Err? && unchanged(media))
            && (media.reliable && reader.reliable ==>
                  (r.Ok? <==> Startable(cfg, a, b)) && (r.Err? ==> choice == Err(r.error)))
            && (r.Ok? ==> var c := r.value.current; c.bookId == bookId && c.next <= |reader.book| && Attested(cfg, c))
    ensures r.Ok? ==> && fresh(r.value) && r.value.Valid() && !r.value.halted && r.value.trace == trace
                      && r.value.media == media && r.value.reader == reader && r.value.bookId == bookId
    ensures r.Err? ==> Last(trace).proc.Down? && r.error in {AnchorCorrupt, BookMismatch, PersistenceUncertain}
  {
    hide DecodeAndVerify, Run, Inv, Next, OpenChoice, Below, Attested;
    ghost var cfg := Config(media.sha, bookId, reader.book);
    OpenSucceedsIff(cfg, media.Disk().a.cached, media.Disk().b.cached);
    trace := past;
    var choice := ChooseCurrent(media, reader, bookId);
    if choice.Err? {
      return Err(choice.error), trace;
    }
    var (current, stale) := choice.value;
    StartableTop(cfg, media.Disk().a.cached, media.Disk().b.cached);
    OpenExtends(cfg, trace, current, stale);
    ghost var booted := Last(past).(proc := Booted(current, stale));
    trace := trace + [booted];
    if stale.Some? {
      var ok;
      ok, trace := RepairStale(media, stale.value, current, cfg, trace);
      if ok.Err? {
        return Err(ok.error), trace;
      }
    }
    var core := new TransactionCore(media, reader, bookId, current, trace);
    r := Ok(core);
  }

  /** Rewrites the stale copy with the adopted record and reads it back. */
  method RepairStale(media: AnchorMedia, copy: AnchorCopy, current: AnchorRecord, ghost cfg: Config,
                     ghost past: seq<State>)
    returns (r: Result<(), IssueError>, ghost trace: seq<State>)
    requires media.sha == cfg.sha && Run(cfg, past) && Inv(cfg, past[0]) && Last(past).disk == media.Disk()
    requires Last(past).proc == Repair(current, copy, 0)
    modifies media
    ensures past <= trace && Run(cfg, trace) && Last(trace).disk == media.Disk()
    ensures Last(trace).handed == Last(past).handed
    ensures Last(trace).proc == if r.Ok? then Ready(current) else Down
    ensures r.Err? ==> r.error in {AnchorCorrupt, PersistenceUncertain}
    ensures media.reliable ==> r.Ok?
  {
    hide DecodeAndVerify;
    RunKeepsInv(cfg, past, |past| - 1);
    assert InDisk(Last(past).disk, current);
    ghost var down: State;
    var persisted;
    persisted, trace := PersistOne(media, copy, current, cfg, past);
    down := Last(trace).(proc := Down);
    if persisted.Err? {
      Extend(cfg, trace, down);
      trace := trace + [down];
      return Err(PersistenceUncertain), trace;
    }
    RunKeepsInv(cfg, trace, |trace| - 1);
    var repaired := ReadRecord(media, copy);
    if repaired.Err? || repaired.value != current {
      Extend(cfg, trace, down);
      trace := trace + [down];
      return Err(if repaired.Err? then repaired.error else PersistenceUncertain), trace;
    }
    ghost var ready := Last(trace).(proc := Ready(current));
    assert RepairedStep(Last(trace), ready);
    Extend(cfg, trace, ready);
    trace := trace + [ready];
    r := Ok(());
  }
}
