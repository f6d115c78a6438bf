/** The pad book: 64-byte segments, and consecutive ones laid end to end. */
module Book {
  import opened Bytes

  function Flat(segments: seq<Bytes64>): (bytes: seq<byte>)
    ensures |bytes| == 64 * |segments|
  {
    if |segments| == 0 then [] else Flat(segments[..|segments| - 1]) + segments[|segments| - 1]
  }

  lemma FlatEnds(segments: seq<Bytes64>)
    requires |segments| > 0
    ensures Flat(segments)[|Flat(segments)| - 64..] == segments[|segments| - 1]
  {
  }

  /** Segment `i` of a flat range is at offset `64 * i`. */
  lemma {:induction false} FlatSegment(segments: seq<Bytes64>, i: nat)
    requires i < |segments|
    ensures Flat(segments)[64 * i..64 * i + 64] == segments[i]
  {
    if i < |segments| - 1 {
      FlatSegment(segments[..|segments| - 1], i);
      var front := Flat(segments[..|segments| - 1]);
      assert Flat(segments)[64 * i..64 * i + 64] == front[64 * i..64 * i + 64];
    }
  }

  lemma FlatAppend(segments: seq<Bytes64>, last: Bytes64)
    ensures Flat(segments + [last]) == Flat(segments) + last
  {
    assert (segments + [last])[..|segments|] == segments;
  }

  lemma FlatGrows(book: seq<Bytes64>, base: nat, i: nat)
    requires base + i < |book|
    ensures Flat(book[base..base + i + 1]) == Flat(book[base..base + i]) + book[base + i]
  {
    assert book[base..base + i + 1] == book[base..base + i] + [book[base + i]];
    FlatAppend(book[base..base + i], book[base + i]);
  }

  lemma Inside<T>(front: seq<T>, last: seq<T>, i: nat, j: nat)
    requires i <= j
    ensures j <= |front| ==> (front + last)[i..j] == front[i..j]
    ensures i <= |front| && j == |front| + |last| ==> (front + last)[i..j] == front[i..] + last
  {
  }

  /** The bytes of consecutive segments are consecutive bytes of the book. */
  lemma {:induction false} FlatSlice(segments: seq<Bytes64>, a: nat, b: nat)
    requires a <= b <= |segments|
    ensures Flat(segments)[64 * a..64 * b] == Flat(segments[a..b])
  {
    hide Flat;
    if a < b {
      var front, last := segments[..|segments| - 1], segments[|segments| - 1];
      assert segments == front + [last];
      FlatAppend(front, last);
      Inside(Flat(front), last, 64 * a, 64 * b);
      if b < |segments| {
        FlatSlice(front, a, b);
        assert front[a..b] == segments[a..b];
      } else {
        FlatSlice(front, a, b - 1);
        FlatAppend(front[a..], last);
        assert segments[a..b] == front[a..] + [last] && front[a..b - 1] == front[a..];
        assert Flat(front)[64 * a..64 * (b - 1)] == Flat(front)[64 * a..];
      }
    } else {
      FlatOfNothing();
      assert segments[a..b] == [];
    }
  }

  lemma FlatOfNothing()
    ensures Flat([]) == []
  {
  }

  lemma FlatLast(book: seq<Bytes64>, base: nat, n: nat)
    requires 0 < n && base + n <= |book|
    ensures var bytes := Flat(book[base..base + n]); |bytes| >= 64 && bytes[|bytes| - 64..] == book[base + n - 1]
  {
    hide Flat;
    var range := book[base..base + n];
    FlatEnds(range);
    assert range[n - 1] == book[base + n - 1];
  }
}
