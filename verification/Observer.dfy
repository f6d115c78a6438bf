/**
 * The version observer beside the relay: fed a stream in arbitrary chunks, it decides on the first line that
 * starts "SSH-", within the first 8192 bytes.
 */
module Observer {
  import opened Bytes

  const SCAN_WINDOW := 8192
  const VERSION_MAX_BYTES := 128
  const NEWLINE: byte := 0x0A
  const RETURN: byte := 0x0D
  const PREFIX: seq<byte> := [0x53, 0x53, 0x48, 0x2D]

  /** The first newline at or after `from`, or the length. */
  function NewlineFrom(s: seq<byte>, from: nat): (i: nat)
    requires from <= |s|
    ensures from <= i <= |s| && (i < |s| ==> s[i] == NEWLINE)
    ensures forall k :: from <= k < i ==> s[k] != NEWLINE
    decreases |s| - from
  {
    if from == |s| || s[from] == NEWLINE then from else NewlineFrom(s, from + 1)
  }

  /** A line without its carriage return. */
  function Chomp(line: seq<byte>): seq<byte> {
    if |line| > 0 && line[|line| - 1] == RETURN then line[..|line| - 1] else line
  }

  predicate IsVersion(line: seq<byte>) {
    PREFIX <= Chomp(line)
  }

  function Cut(line: seq<byte>): seq<byte> {
    if |line| > VERSION_MAX_BYTES then line[..VERSION_MAX_BYTES] else line
  }

  datatype Verdict = Undecided | NoVersion | Found(version: seq<byte>, truncated: bool)

  /** What a whole stream comes to, looking at lines from `from` on. */
  function Scan(s: seq<byte>, from: nat): Verdict
    requires from <= |s|
    decreases |s| - from
  {
    var i := NewlineFrom(s, from);
    if i == |s| then (if |s| >= SCAN_WINDOW then NoVersion else Undecided)
    else if i >= SCAN_WINDOW then NoVersion
    else if IsVersion(s[from..i]) then
      Found(Cut(Chomp(s[from..i])), |Chomp(s[from..i])| > VERSION_MAX_BYTES)
    else Scan(s, i + 1)
  }

  class VersionObserver {
    var buf: seq<byte>
    var scanned: nat
    var base: nat
    var done: bool
    var version: Option<seq<byte>>
    var truncated: bool
    /** Everything observed so far. */
    ghost var stream: seq<byte>

    /** Where the observer stands is exactly what the whole stream so far comes to. */
    ghost predicate Valid()
      reads this
    {
      && (!done ==>
            && scanned == |stream| == base + |buf| < SCAN_WINDOW && buf == stream[base..]
            && NewlineFrom(buf, 0) == |buf| && SkipsTo(stream, base) && version == None && !truncated)
      && (done ==>
            match Scan(stream, 0)
            case Undecided => false
            case NoVersion => version == None && !truncated
            case Found(v, t) => version == Some(v) && truncated == t)
    }

    constructor ()
      ensures Valid() && stream == [] && !done
    {
      buf, scanned, base, done, version, truncated, stream := [], 0, 0, false, None, false, [];
      new;
      assert SkipsTo([], 0);
    }

    method FinishNone()
      modifies this
      ensures done && version == None && truncated == old(truncated) && stream == old(stream)
    {
      done := true;
      version := None;
      buf := [];
    }

    method Observe(chunk: seq<byte>)
      requires Valid()
      modifies this
      ensures Valid() && stream == old(stream) + chunk
    {
      ghost var all := stream + chunk;
      if done {
        DecidedStays(stream, chunk, 0);
        stream := all;
        return;
      }
      SkipExtends(stream, chunk, base);
      stream := all;
      scanned := scanned + |chunk|;
      buf := buf + chunk;
      while !done && NewlineFrom(buf, 0) < |buf|
        invariant stream == all && (done ==> Valid()) && (!done ==> Scanning())
        decreases !done, |buf|
      {
        TakeLine();
      }
      if !done {
        SuffixNewline(all, base);
        SkipUsed(all, base);
        if scanned >= SCAN_WINDOW {
          FinishNone();
        }
      }
    }

    /** Between lines: everything before `base` has been judged and skipped. */
    ghost predicate Scanning()
      reads this
    {
      && !done && version == None && !truncated && scanned == |stream|
      && base <= |stream| && buf == stream[base..] && SkipsTo(stream, base)
    }

    /** Judges the next complete line. */
    method TakeLine()
      requires Scanning() && NewlineFrom(buf, 0) < |buf|
      modifies this
      ensures stream == old(stream) && (done ==> Valid()) && (!done ==> Scanning() && |buf| < old(|buf|))
    {
      hide SkipsTo, Scan, NewlineFrom, Chomp, Cut;
      var i := NewlineFrom(buf, 0);
      SuffixNewline(stream, base);
      SkipUsed(stream, base);
      LineVerdict(stream, base);
      assert buf[..i] == stream[base..base + i];
      if base + i >= SCAN_WINDOW {
        FinishNone();
        return;
      }
      var line := Chomp(buf[..i]);
      if PREFIX <= line {
        truncated := |line| > VERSION_MAX_BYTES;
        version := Some(Cut(line));
        done := true;
        buf := [];
        base := base + i + 1;
        return;
      }
      SkipLine(stream, base);
      buf := buf[i + 1..];
      base := base + i + 1;
      assert buf == stream[base..];
    }

    /** The result so far; an undecided stream has none. */
    method TakeResult() returns (v: Option<seq<byte>>, t: bool)
      requires Valid()
      modifies this
      ensures done && (v, t) == ResultOf(stream) && stream == old(stream)
    {
      ghost var undecided := !done;
      if undecided {
        SuffixNewline(stream, base);
        SkipUsed(stream, base);
      }
      if !done {
        FinishNone();
      }
      v, t := version, truncated;
      version := None;
    }
  }

  function ResultOf(s: seq<byte>): (Option<seq<byte>>, bool) {
    match Scan(s, 0)
    case Found(v, t) => (Some(v), t)
    case _ => (None, false)
  }

  /** The first newline is where there is one and none before it. */
  lemma {:induction false} NewlineIs(s: seq<byte>, from: nat, i: nat)
    requires from <= i <= |s| && (i < |s| ==> s[i] == NEWLINE)
    requires forall k :: from <= k < i ==> s[k] != NEWLINE
    ensures NewlineFrom(s, from) == i
    decreases |s| - from
  {
    if from < i {
      NewlineIs(s, from + 1, i);
    }
  }

  lemma SuffixNewline(s: seq<byte>, from: nat)
    requires from <= |s|
    ensures NewlineFrom(s[from..], 0) == NewlineFrom(s, from) - from
  {
    NewlineIs(s[from..], 0, NewlineFrom(s, from) - from);
  }

  lemma NewlineExtends(s: seq<byte>, t: seq<byte>, from: nat)
    requires from <= |s|
    ensures NewlineFrom(s, from) < |s| ==> NewlineFrom(s + t, from) == NewlineFrom(s, from)
  {
    if NewlineFrom(s, from) < |s| {
      NewlineIs(s + t, from, NewlineFrom(s, from));
    }
  }

  /** What one complete line contributes to the verdict. */
  lemma LineVerdict(s: seq<byte>, base: nat)
    requires base <= |s| && NewlineFrom(s, base) < |s|
    ensures var i := NewlineFrom(s, base);
            var line := s[base..i];
            && (i >= SCAN_WINDOW ==> Scan(s, base) == NoVersion)
            && (i < SCAN_WINDOW && IsVersion(line) ==>
                  Scan(s, base) == Found(Cut(Chomp(line)), |Chomp(line)| > VERSION_MAX_BYTES))
  {
  }

  /** Whatever follows, the lines before `base` decide nothing. */
  ghost predicate SkipsTo(s: seq<byte>, base: nat) {
    base <= |s| && forall t: seq<byte> :: Scan(s + t, 0) == Scan(s + t, base)
  }

  lemma SkipUsed(s: seq<byte>, base: nat)
    requires SkipsTo(s, base)
    ensures Scan(s, 0) == Scan(s, base)
  {
    assert s + [] == s;
  }

  lemma SkipExtends(s: seq<byte>, t: seq<byte>, base: nat)
    requires SkipsTo(s, base)
    ensures SkipsTo(s + t, base)
  {
    hide Scan;
    forall u: seq<byte>
      ensures Scan(s + t + u, 0) == Scan(s + t + u, base)
    {
      assert s + t + u == s + (t + u);
    }
  }

  /** A complete line inside the window that is not a version line can be skipped too. */
  lemma SkipLine(s: seq<byte>, base: nat)
    requires SkipsTo(s, base)
    requires var i := NewlineFrom(s, base); i < |s| && i < SCAN_WINDOW && !IsVersion(s[base..i])
    ensures SkipsTo(s, NewlineFrom(s, base) + 1)
  {
    hide Chomp, Cut, IsVersion, NewlineFrom;
    var i := NewlineFrom(s, base);
    forall t: seq<byte>
      ensures Scan(s + t, 0) == Scan(s + t, i + 1)
    {
      NewlineExtends(s, t, base);
      assert (s + t)[base..i] == s[base..i];
    }
  }

  /** A decision is never taken back by what follows. */
  lemma {:induction false} DecidedStays(s: seq<byte>, t: seq<byte>, from: nat)
    requires from <= |s| && Scan(s, from) != Undecided
    ensures Scan(s + t, from) == Scan(s, from)
    decreases |s| - from
  {
    hide Chomp, Cut, IsVersion, NewlineFrom;
    NewlineExtends(s, t, from);
    var i := NewlineFrom(s, from);
    if i < |s| {
      assert (s + t)[from..i] == s[from..i];
      if i < SCAN_WINDOW && !IsVersion(s[from..i]) {
        DecidedStays(s, t, i + 1);
      }
    }
  }

  // ---- what the decision means ----

  /** `s[a..i]` is a whole line of the stream, its newline at `i`. */
  predicate LineAt(s: seq<byte>, a: nat, i: nat) {
    && a <= i < |s| && s[i] == NEWLINE && (a == 0 || s[a - 1] == NEWLINE)
    && forall k :: a <= k < i ==> s[k] != NEWLINE
  }

  /** The line ends inside the window and starts "SSH-". */
  predicate VersionAt(s: seq<byte>, a: nat, i: nat) {
    LineAt(s, a, i) && i < SCAN_WINDOW && IsVersion(s[a..i])
  }

  /** A version line: between two line feeds, the second before byte 8192, from "SSH-" on; and what is kept of it. */
  lemma VersionLineMeans(s: seq<byte>, a: nat, i: nat)
    ensures VersionAt(s, a, i) <==>
            && a <= i < |s| && i < 8192 && s[i] == 10 && (a == 0 || s[a - 1] == 10) && (forall k :: a <= k < i ==> s[k] != 10)
            && a + 4 <= i && s[a..a + 4] == [83, 83, 72, 45]
    ensures a <= i <= |s| ==>
              var end := if a < i && s[i - 1] == 13 then i - 1 else i;
              Report(s[a..i]) == Found(s[a..if end - a > 128 then a + 128 else end], end - a > 128)
  {
    if a <= i <= |s| {
      var line := s[a..i];
      var end := if a < i && s[i - 1] == 13 then i - 1 else i;
      assert Chomp(line) == s[a..end];
      if end - a > 128 {
        assert s[a..end][..128] == s[a..a + 128];
      }
      if a + 4 <= i {
        assert line[..4] == s[a..a + 4];
      }
    }
  }

  /** Lines from a line start on: the one that ends at the next newline, then those after it. */
  lemma LinesFrom(s: seq<byte>, from: nat, b: nat, j: nat)
    requires from <= b && (from == 0 || (from <= |s| && s[from - 1] == NEWLINE)) && LineAt(s, b, j)
    ensures var i := NewlineFrom(s, from); i < |s| && ((b == from && j == i) || b > i)
  {
    hide NewlineFrom;
    var i := NewlineFrom(s, from);
    assert s[j] == NEWLINE;
    if b > from {
      assert s[b - 1] == NEWLINE;
    } else {
      NewlineIs(s, from, j);
    }
  }

  /** The first version line among those that start at or after `from`. */
  ghost predicate FirstFrom(s: seq<byte>, from: nat, a: nat, i: nat) {
    from <= a && VersionAt(s, a, i) && forall b: nat, j: nat :: from <= b < a ==> !VersionAt(s, b, j)
  }

  function Report(line: seq<byte>): Verdict {
    Found(Cut(Chomp(line)), |Chomp(line)| > VERSION_MAX_BYTES)
  }

  lemma {:induction false} ScanMeans(s: seq<byte>, from: nat)
    requires from <= |s| && (from == 0 || s[from - 1] == NEWLINE)
    ensures Scan(s, from).Found? ==> exists a: nat, i: nat :: FirstFrom(s, from, a, i) && Scan(s, from) == Report(s[a..i])
    ensures !Scan(s, from).Found? ==> forall b: nat, j: nat :: from <= b ==> !VersionAt(s, b, j)
    decreases |s| - from
  {
    hide NewlineFrom, Chomp, Cut, IsVersion;
    var i := NewlineFrom(s, from);
    forall b: nat, j: nat | from <= b && LineAt(s, b, j)
      ensures i < |s| && ((b == from && j == i) || b > i)
    {
      LinesFrom(s, from, b, j);
    }
    if i < |s| && i < SCAN_WINDOW {
      if IsVersion(s[from..i]) {
        assert FirstFrom(s, from, from, i);
      } else {
        ScanMeans(s, i + 1);
        if Scan(s, i + 1).Found? {
          var a: nat, k: nat :| FirstFrom(s, i + 1, a, k) && Scan(s, i + 1) == Report(s[a..k]);
          assert FirstFrom(s, from, a, k);
        }
      }
    }
  }

  /**
   * However the stream was cut into chunks: a version is reported exactly when some line of the stream ends
   * inside the window and starts "SSH-", and it is the first such line, cut to 128 bytes.
   */
  lemma ResultIsFirstVersionLine(s: seq<byte>)
    ensures ResultOf(s).0.Some? <==> exists a: nat, i: nat :: VersionAt(s, a, i)
    ensures ResultOf(s).0.Some? ==> exists a: nat, i: nat :: FirstFrom(s, 0, a, i) && Reports(s, a, i)
  {
    hide Chomp, Cut, IsVersion, Scan;
    ScanMeans(s, 0);
    if Scan(s, 0).Found? {
      var a: nat, i: nat :| FirstFrom(s, 0, a, i) && Scan(s, 0) == Report(s[a..i]);
      assert Reports(s, a, i);
    }
  }

  predicate Reports(s: seq<byte>, a: nat, i: nat) {
    a <= i <= |s| && ResultOf(s) == (Some(Cut(Chomp(s[a..i]))), |Chomp(s[a..i])| > VERSION_MAX_BYTES)
  }

  /** Two ways of cutting one stream give one result. */
  method ObserveAll(chunks: seq<seq<byte>>) returns (v: Option<seq<byte>>, t: bool)
    ensures (v, t) == ResultOf(Joined(chunks))
  {
    var o := new VersionObserver();
    for k := 0 to |chunks|
      invariant o.Valid() && fresh(o) && o.stream == Joined(chunks[..k])
    {
      o.Observe(chunks[k]);
      assert chunks[..k + 1][..k] == chunks[..k];
    }
    assert chunks[..|chunks|] == chunks;
    v, t := o.TakeResult();
  }

  function Joined(chunks: seq<seq<byte>>): seq<byte> {
    if |chunks| == 0 then [] else Joined(chunks[..|chunks| - 1]) + chunks[|chunks| - 1]
  }
}
