/** A source of bundles that draws them from the crash-safe allocator, and what its bundles owe to it. */
module BookSource {
  import opened Bytes
  import opened Types
  import opened Wire
  import opened Pad
  import opened Record
  import opened PumpSpec
  import opened PadUse
  import opened BookUse
  import opened Book
  import AllocatorRuns
  import Allocator

  /** Bundle `k` is 128 segments handed out in a row, from position `at[k]` of `handed`, each after the one before. */
  predicate HandedOut(handed: seq<nat>, bundles: seq<nat>, at: seq<nat>) {
    && |at| == |bundles|
    && (forall k :: 0 <= k < |at| ==>
          at[k] + 128 <= |handed| && handed[at[k]..at[k] + 128] == AllocatorRuns.Range(bundles[k], bundles[k] + 128))
    && (forall k, k' :: 0 <= k < k' < |at| ==> at[k] + 128 <= at[k'])
  }

  /** Bundles cut from segments handed out in increasing order do not overlap. */
  lemma HandedOutIsSpaced(handed: seq<nat>, bundles: seq<nat>, at: seq<nat>)
    requires AllocatorRuns.Increasing(handed) && HandedOut(handed, bundles, at)
    ensures Spaced(bundles)
  {
    forall k, k' | 0 <= k < k' < |bundles|
      ensures bundles[k] + 128 <= bundles[k']
    {
      assert handed[at[k] + 127] == handed[at[k]..at[k] + 128][127] == bundles[k] + 127;
      assert handed[at[k']] == handed[at[k']..at[k'] + 128][0] == bundles[k'];
    }
  }

  lemma OneMore(handed: seq<nat>, bundles: seq<nat>, at: seq<nat>, base: nat)
    requires HandedOut(handed, bundles, at)
    ensures HandedOut(handed + AllocatorRuns.Range(base, base + 128), bundles + [base], at + [|handed|])
  {
    var handed' := handed + AllocatorRuns.Range(base, base + 128);
    forall k | 0 <= k < |at|
      ensures handed'[at[k]..at[k] + 128] == AllocatorRuns.Range(bundles[k], bundles[k] + 128)
    {
      assert handed'[at[k]..at[k] + 128] == handed[at[k]..at[k] + 128];
    }
    assert handed'[|handed|..|handed| + 128] == AllocatorRuns.Range(base, base + 128);
  }

  lemma BookFits(issuer: Allocator.TransactionCore)
    requires issuer.Valid()
    ensures |issuer.reader.book| <= U64_MAX
  {
  }

  /** One reservation of 128 segments, as far as a source is concerned. */
  method ReserveBundle(issuer: Allocator.TransactionCore)
    returns (r: Result<Allocator.ReservedRange, AllocatorRuns.IssueError>)
    requires issuer.Valid()
    modifies issuer, issuer.media
    ensures issuer.Valid()
    ensures r.Ok? ==>
      && r.value.base == old(issuer.current.next) && r.value.base + 128 <= |issuer.reader.book| <= U64_MAX
      && r.value.bytes == Flat(issuer.reader.book[r.value.base..r.value.base + 128])
      && issuer.Handed() == old(issuer.Handed()) + AllocatorRuns.Range(r.value.base, r.value.base + 128)
    ensures r.Err? ==> issuer.Handed() == old(issuer.Handed())
    ensures old(issuer.CanIssue(128)) ==> r.Ok?
    ensures r.Err? && r.error.Exhausted? <==>
            !old(issuer.halted) && |issuer.reader.book| < old(issuer.current.next) + 128 <= U64_MAX
  {
    hide Flat, AllocatorRuns.Run, AllocatorRuns.Inv, AllocatorRuns.Next, AllocatorRuns.Everywhere, AllocatorRuns.Range;
    BookFits(issuer);
    r := issuer.ReserveRange(128);
  }

  /** The allocator as a pad source. `bundles` are those it has given out, `at` where in the allocator's account. */
  class AllocatorSource {
    const issuer: Allocator.TransactionCore
    ghost var bundles: seq<nat>
    ghost var at: seq<nat>

    ghost predicate Valid()
      reads this, issuer, issuer.media
    {
      issuer.Valid() && HandedOut(issuer.Handed(), bundles, at)
    }

    constructor (issuer: Allocator.TransactionCore)
      requires issuer.Valid()
      ensures Valid() && this.issuer == issuer && bundles == []
    {
      this.issuer := issuer;
      bundles, at := [], [];
    }

    /** No bundle of this source overlaps another, whatever failed in between. */
    lemma BundlesAreSpaced()
      requires Valid()
      ensures Spaced(bundles)
    {
      issuer.HandsOutInOrder();
      HandedOutIsSpaced(issuer.Handed(), bundles, at);
    }

    /** The next 128 segments, whole, or a failure that gives out nothing. */
    method ReserveNextBundle() returns (answer: Answer)
      requires Valid()
      modifies this, issuer, issuer.media
      ensures Valid()
      ensures answer.Ok? ==>
        && answer.value.base == old(issuer.current.next) && answer.value.base + 128 <= |issuer.reader.book|
        && answer.value.flat == Flat(issuer.reader.book[answer.value.base..answer.value.base + 128])
        && bundles == old(bundles) + [answer.value.base]
      ensures answer.Err? ==> bundles == old(bundles)
      ensures old(issuer.CanIssue(128)) ==> answer.Ok?
      ensures answer == Err(ReserveFailed("exhausted")) <==>
              !old(issuer.halted) && |issuer.reader.book| < old(issuer.current.next) + 128 <= U64_MAX
    {
      hide AllocatorRuns.Run, AllocatorRuns.Inv, AllocatorRuns.Next, AllocatorRuns.Range, Flat, HandedOut;
      var range := ReserveBundle(issuer);
      if range.Err? {
        return Err(ReserveFailed(match range.error
                                 case Exhausted(_) => "exhausted"
                                 case PersistenceUncertain => "persistence-uncertain"
                                 case _ => "io"));
      }
      OneMore(old(issuer.Handed()), bundles, at, range.value.base);
      bundles, at := bundles + [range.value.base], at + [|old(issuer.Handed())|];
      answer := Ok(Supply(range.value.base, range.value.bytes));
    }

    /** The announced bundle, only if the allocator stands exactly there. */
    method ReserveBundleAt(base: u64) returns (answer: Answer)
      requires Valid()
      modifies this, issuer, issuer.media
      ensures Valid()
      ensures base != old(issuer.current.next) ==>
        answer == Err(PointerMismatch(old(issuer.current.next), base)) && bundles == old(bundles)
        && issuer.Handed() == old(issuer.Handed())
      ensures answer.Ok? ==>
        && answer.value.base == base == old(issuer.current.next) && base + 128 <= |issuer.reader.book|
        && answer.value.flat == Flat(issuer.reader.book[base..base + 128])
        && bundles == old(bundles) + [base]
      ensures answer.Err? ==> bundles == old(bundles)
      ensures base == old(issuer.current.next) && old(issuer.CanIssue(128)) ==> answer.Ok?
    {
      hide AllocatorRuns.Run, AllocatorRuns.Inv, AllocatorRuns.Next, Flat, HandedOut;
      if issuer.current.next != base {
        return Err(PointerMismatch(issuer.current.next, base));
      }
      answer := ReserveNextBundle();
      if answer.Err? {
        answer := Err(ReserveFailed("reserve-failed"));
      }
    }
  }

  /**
   * A pump all of whose bundles came from one allocator, over all its starts, failures and crashes: no byte of the
   * book is used for a second key or exclusive-or. Nothing is assumed about the bundles but that it handed them out.
   */
  lemma OneAllocatorOnePad(cfg: AllocatorRuns.Config, run: seq<AllocatorRuns.State>, at: seq<nat>,
                           mac: Mac, role: Role, base: u64, flat: Bundle, calls: seq<Call>, i: nat, j: nat)
    requires cfg.Valid() && AllocatorRuns.Run(cfg, run) && AllocatorRuns.Initial(cfg, run[0])
    requires base + 128 <= U64_MAX && CallsPossible(mac, New(role, base, flat), calls)
    requires HandedOut(AllocatorRuns.Last(run).handed, Table(mac, New(role, base, flat), calls, [base]), at)
    requires i < j < |Uses(mac, New(role, base, flat), calls)|
    ensures var uses := Uses(mac, New(role, base, flat), calls);
            uses[i].End() <= uses[j].First() || uses[j].End() <= uses[i].First()
  {
    hide CallsPossible, Table, Uses, HandedOut, Spaced, New;
    AllocatorRuns.NoSegmentHandedOutTwice(cfg, run, |run| - 1);
    HandedOutIsSpaced(AllocatorRuns.Last(run).handed, Table(mac, New(role, base, flat), calls, [base]), at);
    NoBookByteUsedTwice(mac, role, base, flat, calls, i, j);
  }
}
