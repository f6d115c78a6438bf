/** Length-prefixed frames: an eight-byte header whose last four bytes give the length of what follows. */
module Framing {
  import opened Bytes
  import Message

  const HEADER := Message.FRAME_HEADER_LEN
  const MAX_PAYLOAD := Message.MAX_FRAME_PAYLOAD
  /** One write offers the stream at most this many bytes. */
  const WRITE_CHUNK := 16 * 1024

  datatype TransportError = Timeout | ClosedByPeer | FrameTooLarge(len: nat) | FrameMalformed

  function Declared(frame: seq<byte>): nat
    requires |frame| >= HEADER
  {
    Low32(frame[4..HEADER])
  }

  predicate WellFormed(frame: seq<byte>) {
    |frame| >= HEADER && Declared(frame) <= MAX_PAYLOAD && |frame| == HEADER + Declared(frame)
  }

  /** A beginning that more bytes could still make a well-formed frame, and that is not one yet. */
  predicate Unfinished(s: seq<byte>) {
    |s| < HEADER || (Declared(s) <= MAX_PAYLOAD && |s| < HEADER + Declared(s))
  }

  predicate AllFrames(frames: seq<seq<byte>>) {
    forall f <- frames :: WellFormed(f)
  }

  function Concat(frames: seq<seq<byte>>): seq<byte> {
    if frames == [] then [] else frames[0] + Concat(frames[1..])
  }

  lemma {:induction false} ConcatAppend(frames: seq<seq<byte>>, f: seq<byte>)
    ensures Concat(frames + [f]) == Concat(frames) + f
  {
    if frames == [] {
      assert Concat([f]) == f + Concat([]);
    } else {
      assert (frames + [f])[1..] == frames[1..] + [f];
      ConcatAppend(frames[1..], f);
    }
  }

  /** What the sender refuses before it writes anything: the size limit comes before the mismatch. */
  method CheckFrame(frame: seq<byte>) returns (r: Option<TransportError>)
    ensures r.None? <==> WellFormed(frame)
    ensures r.Some? ==>
      r.value == if |frame| >= HEADER && Declared(frame) > MAX_PAYLOAD then FrameTooLarge(Declared(frame))
                 else FrameMalformed
  {
    if |frame| < HEADER {
      return Some(FrameMalformed);
    }
    var declared := Declared(frame);
    if declared > MAX_PAYLOAD {
      return Some(FrameTooLarge(declared));
    }
    if declared != |frame| - HEADER {
      return Some(FrameMalformed);
    }
    return None;
  }

  lemma DeclaredOfPrefix(s: seq<byte>, t: seq<byte>)
    requires HEADER <= |s| <= |t| && s == t[..|s|]
    ensures Declared(s) == Declared(t)
  {
    assert s[4..HEADER] == t[4..HEADER];
  }

  lemma FrameCutShort(frame: seq<byte>, n: nat)
    requires WellFormed(frame) && n < |frame|
    ensures Unfinished(frame[..n])
  {
    if n >= HEADER {
      DeclaredOfPrefix(frame[..n], frame);
    }
  }

  lemma FrameIsNotUnfinished(frame: seq<byte>, more: seq<byte>)
    requires WellFormed(frame)
    ensures !Unfinished(frame + more)
  {
    DeclaredOfPrefix(frame, frame + more);
  }

  /** Frames delimit themselves: two readings of one stream as frames agree on every frame. */
  lemma {:induction false} FramesAgree(got: seq<seq<byte>>, rest: seq<byte>, sent: seq<seq<byte>>, tail: seq<byte>)
    requires AllFrames(got) && AllFrames(sent) && Unfinished(tail)
    requires Concat(got) + rest == Concat(sent) + tail
    ensures got <= sent
    ensures rest == Concat(sent[|got|..]) + tail
  {
    hide Declared, WellFormed, Unfinished;
    var stream := Concat(got) + rest;
    if got == [] {
      assert sent[0..] == sent && stream == rest;
    } else {
      var g := got[0];
      assert stream == g + (Concat(got[1..]) + rest);
      assert stream[..|g|] == g;
      if sent == [] {
        assert stream == tail;
        FrameIsNotUnfinished(g, Concat(got[1..]) + rest);
        assert false;
      } else {
        var f := sent[0];
        assert stream == f + (Concat(sent[1..]) + tail);
        FirstFrameAgrees(g, f, stream);
        assert Concat(got[1..]) + rest == stream[|g|..] == Concat(sent[1..]) + tail;
        FramesAgree(got[1..], rest, sent[1..], tail);
        assert got == [g] + got[1..] && sent == [f] + sent[1..];
        assert sent[1..][|got| - 1..] == sent[|got|..];
      }
    }
  }

  lemma FirstFrameAgrees(g: seq<byte>, f: seq<byte>, stream: seq<byte>)
    requires WellFormed(g) && WellFormed(f)
    requires g <= stream && f <= stream
    ensures g == f
  {
    assert g[4..HEADER] == stream[4..HEADER] == f[4..HEADER];
    assert g == stream[..|g|] && f == stream[..|f|];
  }

  /** The next header on a stream of frames never declares too much. */
  lemma NextHeaderIsSane(got: seq<seq<byte>>, head: seq<byte>, rest: seq<byte>, sent: seq<seq<byte>>, tail: seq<byte>)
    requires AllFrames(got) && AllFrames(sent) && Unfinished(tail)
    requires Concat(got) + (head + rest) == Concat(sent) + tail
    requires |head| == HEADER
    ensures Declared(head) <= MAX_PAYLOAD
  {
    FramesAgree(got, head + rest, sent, tail);
    var ahead := sent[|got|..];
    assert head == (head + rest)[..HEADER];
    if ahead == [] {
      DeclaredOfPrefix(head, tail);
    } else {
      var f := ahead[0];
      assert f in sent;
      assert head + rest == f + (Concat(ahead[1..]) + tail);
      assert head == f[..HEADER];
      DeclaredOfPrefix(head, f);
    }
  }
}
