/** The terminal's write lease: fencing tokens, expiry by silence, abandonment, and the write gate. */
module Lease {
  import opened Bytes

  datatype LeaseDenied = Busy(holder: u64, token: u64)

  datatype TerminalError = StaleWriter | WriteFailed

  datatype LeaseState = LeaseState(token: u64, holder: Option<u64>, lastSeen: nat, abandoned: bool)

  predicate Expired(s: LeaseState, timeout: nat, now: nat) {
    now > s.lastSeen + timeout
  }

  /** The token may still write at `now`. */
  predicate Current(s: LeaseState, timeout: nat, token: u64, now: nat) {
    s.token == token && !s.abandoned && !Expired(s, timeout, now)
  }

  function Initial(now: nat): LeaseState {
    LeaseState(0, None, now, true)
  }

  /** Someone holds the lease and has been heard from recently. */
  predicate Held(s: LeaseState, timeout: nat, now: nat) {
    s.holder.Some? && !s.abandoned && !Expired(s, timeout, now)
  }

  /** A grant needs a token beyond the last one; a refusal needs none. */
  function AfterAcquire(s: LeaseState, timeout: nat, conn: u64, now: nat): LeaseState
    requires Held(s, timeout, now) || s.token < U64_MAX
  {
    if Held(s, timeout, now) then s else LeaseState(s.token + 1, Some(conn), now, false)
  }

  function AfterHeartbeat(s: LeaseState, timeout: nat, token: u64, now: nat): LeaseState {
    if Current(s, timeout, token, now) then s.(lastSeen := now) else s
  }

  function AfterDrop(s: LeaseState, token: u64): LeaseState {
    if s.token == token then s.(abandoned := true) else s
  }

  class LeaseManager {
    const timeout: nat
    var token: u64
    var holder: Option<u64>
    var lastSeen: nat
    var abandoned: bool

    function Value(): LeaseState
      reads this
    {
      LeaseState(token, holder, lastSeen, abandoned)
    }

    constructor (timeout: nat, now: nat)
      requires timeout > 0
      ensures Value() == Initial(now) && this.timeout == timeout
    {
      this.timeout := timeout;
      token, holder, lastSeen, abandoned := 0, None, now, true;
    }

    /** The new token, or who holds the lease. */
    method Acquire(conn: u64, now: nat) returns (r: Result<u64, LeaseDenied>)
      requires Held(Value(), timeout, now) || token < U64_MAX
      modifies this
      ensures Value() == AfterAcquire(old(Value()), timeout, conn, now)
      ensures r.Err? <==> old(Held(Value(), timeout, now))
      ensures r.Ok? ==> r.value == token == old(token) + 1
      ensures r.Err? ==> old(holder) == Some(r.error.holder) && r.error.token == token
    {
      if holder.Some? {
        var busy := !abandoned && !(now > lastSeen + timeout);
        if busy {
          return Err(Busy(holder.value, token));
        }
      }
      token := token + 1;
      holder, lastSeen, abandoned := Some(conn), now, false;
      r := Ok(token);
    }

    method Heartbeat(t: u64, now: nat) returns (ok: bool)
      modifies this
      ensures Value() == AfterHeartbeat(old(Value()), timeout, t, now)
      ensures ok <==> old(Current(Value(), timeout, t, now))
    {
      if token != t || abandoned || now > lastSeen + timeout {
        return false;
      }
      lastSeen := now;
      ok := true;
    }

    /** Runs the write action and returns its result, or refuses without running it; the lease is not touched. */
    method WriteGate<T>(t: u64, now: nat, action: () -> Result<T, TerminalError>)
      returns (r: Result<T, TerminalError>)
      ensures r == if Current(Value(), timeout, t, now) then action() else Err(StaleWriter)
    {
      if token != t || abandoned || now > lastSeen + timeout {
        return Err(StaleWriter);
      }
      r := action();
    }

    /** The destructor of a grant. */
    method DropGrant(t: u64)
      modifies this`abandoned
      ensures Value() == AfterDrop(old(Value()), t)
    {
      if token == t && !abandoned {
        abandoned := true;
      }
    }
  }

  // ---- every run ----

  datatype Event =
    | Acquire(conn: u64, now: nat)
    | Heartbeat(token: u64, now: nat)
    | Write(token: u64, now: nat)
    | Drop(token: u64, now: nat)

  /** What an observer of the terminal sees. */
  datatype Mark = Granted(token: u64) | Wrote(token: u64)

  /** Tokens are not exhausted. */
  predicate Possible(s: LeaseState, timeout: nat, e: Event) {
    e.Acquire? ==> Held(s, timeout, e.now) || s.token < U64_MAX
  }

  function After(s: LeaseState, timeout: nat, e: Event): LeaseState
    requires Possible(s, timeout, e)
  {
    match e
    case Acquire(conn, now) => AfterAcquire(s, timeout, conn, now)
    case Heartbeat(t, now) => AfterHeartbeat(s, timeout, t, now)
    case Write(_, _) => s
    case Drop(t, _) => AfterDrop(s, t)
  }

  function MarkOf(s: LeaseState, timeout: nat, e: Event): seq<Mark>
    requires Possible(s, timeout, e)
  {
    match e
    case Acquire(_, now) => if Held(s, timeout, now) then [] else [Granted(s.token + 1)]
    case Write(t, now) => if Current(s, timeout, t, now) then [Wrote(t)] else []
    case _ => []
  }

  /** The clock never goes back, and tokens are not exhausted. */
  predicate Orderly(s: LeaseState, timeout: nat, clock: nat, events: seq<Event>)
    decreases |events|
  {
    |events| == 0 ||
    (Possible(s, timeout, events[0]) && clock <= events[0].now &&
     Orderly(After(s, timeout, events[0]), timeout, events[0].now, events[1..]))
  }

  function Marks(s: LeaseState, timeout: nat, clock: nat, events: seq<Event>): seq<Mark>
    requires Orderly(s, timeout, clock, events)
    decreases |events|
  {
    if |events| == 0 then []
    else MarkOf(s, timeout, events[0]) + Marks(After(s, timeout, events[0]), timeout, events[0].now, events[1..])
  }

  function Final(s: LeaseState, timeout: nat, clock: nat, events: seq<Event>): LeaseState
    requires Orderly(s, timeout, clock, events)
    decreases |events|
  {
    if |events| == 0 then s else Final(After(s, timeout, events[0]), timeout, events[0].now, events[1..])
  }

  predicate FromToken(marks: seq<Mark>, token: nat) {
    forall i :: 0 <= i < |marks| ==> marks[i].token >= token && (marks[i].Granted? ==> marks[i].token > token)
  }

  lemma {:induction false} MarksFromToken(s: LeaseState, timeout: nat, clock: nat, events: seq<Event>)
    requires Orderly(s, timeout, clock, events)
    ensures FromToken(Marks(s, timeout, clock, events), s.token)
    decreases |events|
  {
    if |events| > 0 {
      MarksFromToken(After(s, timeout, events[0]), timeout, events[0].now, events[1..]);
    }
  }

  /**
   * Over every run: a later mark never carries a smaller token, a later grant always carries a larger one; so
   * once a higher token is granted, nothing is ever again written under a lower one.
   */
  lemma {:induction false} TokensNeverDecrease(s: LeaseState, timeout: nat, clock: nat, events: seq<Event>, i: nat, j: nat)
    requires Orderly(s, timeout, clock, events)
    requires i < j < |Marks(s, timeout, clock, events)|
    ensures var m := Marks(s, timeout, clock, events);
            m[i].token <= m[j].token && (m[j].Granted? ==> m[i].token < m[j].token)
    decreases |events|
  {
    var first := MarkOf(s, timeout, events[0]);
    var s' := After(s, timeout, events[0]);
    MarksFromToken(s', timeout, events[0].now, events[1..]);
    if i >= |first| {
      TokensNeverDecrease(s', timeout, events[0].now, events[1..], i - |first|, j - |first|);
    }
  }

  /** The lease of token `t` is over: superseded, abandoned, or silent for too long. */
  predicate Over(s: LeaseState, timeout: nat, t: u64, now: nat) {
    t <= s.token && !Current(s, timeout, t, now)
  }

  /** Once over, always over: no heartbeat, drop, write or grant brings a token back, however long it waits. */
  lemma {:induction false} OverStaysOver(s: LeaseState, timeout: nat, clock: nat, events: seq<Event>, t: u64)
    requires Orderly(s, timeout, clock, events) && Over(s, timeout, t, clock)
    ensures forall i :: 0 <= i < |Marks(s, timeout, clock, events)| ==> Marks(s, timeout, clock, events)[i].token != t
    decreases |events|
  {
    if |events| > 0 {
      var e := events[0];
      assert Over(s, timeout, t, e.now);
      assert Over(After(s, timeout, e), timeout, t, e.now);
      OverStaysOver(After(s, timeout, e), timeout, e.now, events[1..], t);
    }
  }

  /** Where a run ends: on the last token granted, if any was, and never live without a holder. */
  lemma {:induction false} FinalToken(s: LeaseState, timeout: nat, clock: nat, events: seq<Event>)
    requires Orderly(s, timeout, clock, events)
    ensures var f, m := Final(s, timeout, clock, events), Marks(s, timeout, clock, events);
            && s.token <= f.token && (forall i :: 0 <= i < |m| ==> m[i].token <= f.token)
            && (f.token != s.token ==> Granted(f.token) in m)
            && ((s.abandoned || s.holder.Some?) ==> (f.abandoned || f.holder.Some?))
            && (s.abandoned && f.token == s.token ==> f.abandoned)
    decreases |events|
  {
    if |events| > 0 {
      var s' := After(s, timeout, events[0]);
      FinalToken(s', timeout, events[0].now, events[1..]);
      var later := Marks(s', timeout, events[0].now, events[1..]);
      assert forall mark <- later :: mark.token <= Final(s', timeout, events[0].now, events[1..]).token;
    }
  }

  /** A grant or an accepted heartbeat keeps its token current for exactly the timeout; a drop or a new grant ends it. */
  lemma CurrentForTimeout(s: LeaseState, timeout: nat, conn: u64, t: u64, now: nat, later: nat)
    requires now <= later
    ensures !Held(s, timeout, now) && s.token < U64_MAX ==>
              var s' := AfterAcquire(s, timeout, conn, now);
              && (Current(s', timeout, s.token + 1, later) <==> later <= now + timeout) && !Current(s', timeout, s.token, later)
              && s'.holder == Some(conn)
    ensures Current(s, timeout, t, now) ==>
              (Current(AfterHeartbeat(s, timeout, t, now), timeout, t, later) <==> later <= now + timeout)
    ensures !Current(s, timeout, t, now) ==> AfterHeartbeat(s, timeout, t, now) == s
    ensures !Current(AfterDrop(s, t), timeout, t, later)
    ensures t != s.token ==> AfterDrop(s, t) == s
  {
  }

  /** After any run the lease can be had exactly when no token is current. */
  lemma FreeIffNoneCurrent(start: nat, timeout: nat, clock: nat, events: seq<Event>, now: nat)
    requires Orderly(Initial(start), timeout, clock, events)
    ensures var s := Final(Initial(start), timeout, clock, events);
            Held(s, timeout, now) <==> exists t: u64 :: Current(s, timeout, t, now)
  {
    hide Orderly, Final, Marks;
    FinalToken(Initial(start), timeout, clock, events);
    var s := Final(Initial(start), timeout, clock, events);
    if Held(s, timeout, now) {
      assert Current(s, timeout, s.token, now);
    }
  }

  /**
   * After any run: a current token was granted in it and is the last one granted; no other token is current, and
   * asking for the lease is refused and changes nothing.
   */
  lemma OneCurrentToken(start: nat, timeout: nat, clock: nat, events: seq<Event>, t: u64, t': u64, conn: u64, now: nat)
    requires Orderly(Initial(start), timeout, clock, events)
    requires Current(Final(Initial(start), timeout, clock, events), timeout, t, now)
    ensures var s, m := Final(Initial(start), timeout, clock, events), Marks(Initial(start), timeout, clock, events);
            && Granted(t) in m && (forall i :: 0 <= i < |m| && m[i].Granted? ==> m[i].token <= t)
            && (Current(s, timeout, t', now) <==> t' == t)
            && Held(s, timeout, now) && AfterAcquire(s, timeout, conn, now) == s
            && MarkOf(s, timeout, Acquire(conn, now)) == []
  {
    hide Orderly, Final, Marks;
    FinalToken(Initial(start), timeout, clock, events);
  }

  /** Once a later grant has followed the grant of `t`, dropping `t` changes nothing, whenever it happens. */
  lemma StaleDropIsHarmless(s: LeaseState, timeout: nat, clock: nat, events: seq<Event>, t: u64, i: nat, j: nat, now: nat)
    requires Orderly(s, timeout, clock, events) && i < j < |Marks(s, timeout, clock, events)|
    requires Marks(s, timeout, clock, events)[i] == Granted(t) && Marks(s, timeout, clock, events)[j].Granted?
    ensures After(Final(s, timeout, clock, events), timeout, Drop(t, now)) == Final(s, timeout, clock, events)
  {
    hide Orderly, Final, Marks;
    TokensNeverDecrease(s, timeout, clock, events, i, j);
    FinalToken(s, timeout, clock, events);
  }

  /** Nothing is written before the first grant. */
  lemma {:induction false} WritesFollowTheirGrant(start: nat, timeout: nat, clock: nat, events: seq<Event>, j: nat)
    requires Orderly(Initial(start), timeout, clock, events)
    requires j < |Marks(Initial(start), timeout, clock, events)|
    requires Marks(Initial(start), timeout, clock, events)[j].Wrote?
    ensures exists i :: 0 <= i < j && Marks(Initial(start), timeout, clock, events)[i] ==
                                      Granted(Marks(Initial(start), timeout, clock, events)[j].token)
  {
    WrittenWasGranted(Initial(start), timeout, clock, events, j);
  }

  lemma {:induction false} WrittenWasGranted(s: LeaseState, timeout: nat, clock: nat, events: seq<Event>, j: nat)
    requires Orderly(s, timeout, clock, events) && j < |Marks(s, timeout, clock, events)|
    requires Marks(s, timeout, clock, events)[j].Wrote?
    ensures var m := Marks(s, timeout, clock, events);
            (m[j].token == s.token && !s.abandoned) || exists i :: 0 <= i < j && m[i] == Granted(m[j].token)
    decreases |events|
  {
    var m := Marks(s, timeout, clock, events);
    var first := MarkOf(s, timeout, events[0]);
    var s' := After(s, timeout, events[0]);
    if j >= |first| {
      var later := Marks(s', timeout, events[0].now, events[1..]);
      WrittenWasGranted(s', timeout, events[0].now, events[1..], j - |first|);
      if i :| 0 <= i < j - |first| && later[i] == Granted(m[j].token) {
        assert m[i + |first|] == later[i];
      } else if |first| > 0 && first[0].Granted? {
        assert m[0] == first[0];
      }
    }
  }
}
