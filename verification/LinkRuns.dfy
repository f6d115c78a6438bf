/**
 * One direction of the in-process transport as a machine: a bounded pipe, one sender and one receiver, each taking
 * one step every time it holds the pipe's lock.
 */
module LinkRuns {
  import opened Bytes
  import opened Framing

  /** `Broken`: a call failed after `off` bytes of `frame` had gone out. */
  datatype Sender = Ready | Sending(frame: seq<byte>, off: nat) | Broken(frame: seq<byte>, off: nat) {
    function Unsent(): seq<byte> {
      if Ready? || off > |frame| then [] else frame[..off]
    }
  }

  /** `Lost`: a call failed with `have` already taken off the pipe. */
  datatype Receiver = Waiting | Receiving(have: seq<byte>) | Lost(error: TransportError, have: seq<byte>) {
    function Taken(): seq<byte> {
      if Waiting? then [] else have
    }
  }

  /** `sent` lists the frames written whole, `got` the frames returned; neither influences a step. */
  datatype Link = Link(
    capacity: nat, buf: seq<byte>, writeClosed: bool, readerGone: bool,
    sender: Sender, receiver: Receiver, sent: seq<seq<byte>>, got: seq<seq<byte>>)

  datatype SenderMove = BeginSend(frame: seq<byte>) | WriteSome | SendTimesOut | ShutdownWrite
  datatype ReceiverMove = BeginReceive | ReadSome | ReceiveTimesOut | CloseReceiver
  datatype Move = OfSender(s: SenderMove) | OfReceiver(r: ReceiverMove)

  function StopSending(l: Link): Link
    requires l.sender.Sending?
  {
    l.(sender := if l.sender.off == 0 then Ready else Broken(l.sender.frame, l.sender.off))
  }

  function RoomFor(l: Link): nat
    requires l.sender.Sending?
  {
    var left := if l.sender.off <= |l.sender.frame| then |l.sender.frame| - l.sender.off else 0;
    var space := if |l.buf| <= l.capacity then l.capacity - |l.buf| else 0;
    Min(space, Min(left, WRITE_CHUNK))
  }

  /** One pass of the sender: fail if the reader is gone, wait if the pipe is full, else move what fits. */
  function AfterWrite(l: Link): Link
    requires l.sender.Sending?
  {
    var n := RoomFor(l);
    var frame, off := l.sender.frame, l.sender.off;
    if l.readerGone then StopSending(l)
    else if n == 0 then l
    else
      var l' := l.(buf := l.buf + frame[off..off + n]);
      if off + n == |frame| then l'.(sender := Ready, sent := l.sent + [frame])
      else l'.(sender := Sending(frame, off + n))
  }

  /** A pass of the sender moves all that the free space, the rest of the frame and a chunk of 16384 bytes allow. */
  lemma WriteMoves(l: Link)
    requires l.sender.Sending? && l.sender.off <= |l.sender.frame| && |l.buf| <= l.capacity && !l.readerGone
    ensures var l' := AfterWrite(l);
            var n := |l'.buf| - |l.buf|;
            && 0 <= n && l.sender.off + n <= |l.sender.frame|
            && l'.buf == l.buf + l.sender.frame[l.sender.off..l.sender.off + n]
            && (l.sender.off + n == |l.sender.frame| || n == 16384 || |l'.buf| == l.capacity) && n <= 16384
  {
  }

  /** Bytes still missing from the header, or from the payload once the header is complete. */
  function Needed(have: seq<byte>): nat {
    if |have| < HEADER then HEADER - |have|
    else if |have| <= HEADER + Declared(have) then HEADER + Declared(have) - |have|
    else 0
  }

  /** One pass of the receiver over a pipe that may be empty, partly filled, or closed. */
  function AfterRead(l: Link): Link
    requires l.receiver.Receiving?
  {
    var have := l.receiver.have;
    var take := Min(|l.buf|, Needed(have));
    var have' := have + l.buf[..take];
    var l' := l.(buf := l.buf[take..]);
    if l.buf != [] && take == Needed(have) then
      if |have| >= HEADER then l'.(receiver := Waiting, got := l.got + [have'])
      else if Declared(have') > MAX_PAYLOAD then l'.(receiver := Lost(FrameTooLarge(Declared(have')), have'))
      else l'.(receiver := Receiving(have'))
    else if l.writeClosed then
      l'.(receiver := if have' == [] then Waiting else Lost(FrameMalformed, have'))
    else
      l'.(receiver := Receiving(have'))
  }

  function SenderStep(l: Link, m: SenderMove): Link {
    match m
    case BeginSend(frame) =>
      if l.sender.Ready? && WellFormed(frame) then l.(sender := Sending(frame, 0)) else l
    case WriteSome => if l.sender.Sending? then AfterWrite(l) else l
    case SendTimesOut => if l.sender.Sending? then StopSending(l) else l
    case ShutdownWrite => if l.sender.Sending? then l else l.(writeClosed := true)
  }

  function ReceiverStep(l: Link, m: ReceiverMove): Link {
    match m
    case BeginReceive => if l.receiver.Waiting? then l.(receiver := Receiving([])) else l
    case ReadSome => if l.receiver.Receiving? then AfterRead(l) else l
    case ReceiveTimesOut =>
      if !l.receiver.Receiving? then l
      else l.(receiver := if l.receiver.have == [] then Waiting else Lost(Timeout, l.receiver.have))
    case CloseReceiver => if l.receiver.Receiving? then l else l.(readerGone := true)
  }

  function Step(l: Link, m: Move): Link {
    match m
    case OfSender(s) => SenderStep(l, s)
    case OfReceiver(r) => ReceiverStep(l, r)
  }

  function Run(l: Link, moves: seq<Move>): Link {
    if moves == [] then l else Step(Run(l, moves[..|moves| - 1]), moves[|moves| - 1])
  }

  function Open(capacity: nat): Link {
    Link(capacity, [], false, false, Ready, Waiting, [], [])
  }

  lemma RunAppend(l: Link, moves: seq<Move>, m: Move)
    ensures Run(l, moves + [m]) == Step(Run(l, moves), m)
  {
    assert (moves + [m])[..|moves|] == moves;
  }

  /** A receive in progress holds part of a header, or a header and part of its payload. */
  predicate Reading(have: seq<byte>) {
    Unfinished(have) || (|have| == HEADER && Declared(have) == 0)
  }

  predicate ReceiverOk(l: Link) {
    match l.receiver
    case Waiting => true
    case Receiving(have) => Reading(have)
    case Lost(error, have) =>
      && have != [] && Reading(have)
      && (error == Timeout || (error == FrameMalformed && l.writeClosed))
  }

  predicate SenderOk(s: Sender) {
    s.Ready? || (WellFormed(s.frame) && s.off < |s.frame|)
  }

  ghost predicate Inv(l: Link) {
    && 0 < l.capacity && |l.buf| <= l.capacity
    && AllFrames(l.sent) && AllFrames(l.got)
    && SenderOk(l.sender) && ReceiverOk(l)
    && Concat(l.got) + (l.receiver.Taken() + l.buf) == Concat(l.sent) + l.sender.Unsent()
  }

  lemma TailUnfinished(s: Sender)
    requires SenderOk(s)
    ensures Unfinished(s.Unsent())
  {
    if !s.Ready? {
      FrameCutShort(s.frame, s.off);
    }
  }

  lemma WrittenToPipe(got: seq<byte>, have: seq<byte>, buf: seq<byte>, sent: seq<byte>, frame: seq<byte>, off: nat, n: nat)
    requires off + n <= |frame|
    requires got + (have + buf) == sent + frame[..off]
    ensures got + (have + (buf + frame[off..off + n])) == sent + frame[..off + n]
    ensures off + n == |frame| ==> got + (have + (buf + frame[off..off + n])) == (sent + frame) + []
  {
    var chunk := frame[off..off + n];
    Join(frame, off, off + n);
    assert got + (have + (buf + chunk)) == (got + (have + buf)) + chunk;
    assert (sent + frame[..off]) + chunk == sent + (frame[..off] + chunk);
  }

  lemma WriteKeepsInv(l: Link)
    requires Inv(l) && l.sender.Sending?
    ensures Inv(AfterWrite(l))
  {
    hide Declared, Concat, WellFormed, Reading;
    var n := RoomFor(l);
    if !l.readerGone && n > 0 {
      WrittenToPipe(Concat(l.got), l.receiver.Taken(), l.buf, Concat(l.sent), l.sender.frame, l.sender.off, n);
      ConcatAppend(l.sent, l.sender.frame);
    }
  }

  lemma TakenFromPipe(got: seq<byte>, have: seq<byte>, buf: seq<byte>, take: nat)
    requires take <= |buf|
    ensures got + (have + buf) == got + ((have + buf[..take]) + buf[take..])
    ensures got + (have + buf) == (got + (have + buf[..take])) + ([] + buf[take..])
  {
    assert buf == buf[..take] + buf[take..];
  }

  /** Taking bytes towards what is missing leaves a receive in progress, until nothing is missing. */
  lemma StillReading(have: seq<byte>, more: seq<byte>)
    requires Reading(have) && |more| <= Needed(have)
    ensures |more| < Needed(have) ==> Reading(have + more)
    ensures |more| == Needed(have) && |have| >= HEADER ==> WellFormed(have + more)
  {
    if |have| >= HEADER {
      DeclaredOfPrefix(have, have + more);
    }
  }

  lemma ReadKeepsInv(l: Link)
    requires Inv(l) && l.receiver.Receiving?
    ensures Inv(AfterRead(l))
  {
    hide Declared, Concat, WellFormed, Unfinished;
    var have := l.receiver.have;
    var take := Min(|l.buf|, Needed(have));
    var have' := have + l.buf[..take];
    TakenFromPipe(Concat(l.got), have, l.buf, take);
    StillReading(have, l.buf[..take]);
    if l.buf != [] && take == Needed(have) {
      if |have| >= HEADER {
        ConcatAppend(l.got, have');
      } else {
        TailUnfinished(l.sender);
        NextHeaderIsSane(l.got, have', l.buf[take..], l.sent, l.sender.Unsent());
        HeaderIsReading(have');
      }
    } else if take == Needed(have) {
      assert have' == have;
    }
  }

  lemma HeaderIsReading(have: seq<byte>)
    requires |have| == HEADER && Declared(have) <= MAX_PAYLOAD
    ensures Reading(have)
  {
  }

  /** Bytes drained, then bytes buffered, are the bytes written, after every step of either side. */
  lemma StepKeepsInv(l: Link, m: Move)
    requires Inv(l)
    ensures Inv(Step(l, m))
  {
    hide Declared, Concat, WellFormed, AfterRead, AfterWrite;
    if m == OfSender(WriteSome) && l.sender.Sending? {
      WriteKeepsInv(l);
    } else if m == OfReceiver(ReadSome) && l.receiver.Receiving? {
      ReadKeepsInv(l);
    } else if m.OfSender? && m.s.BeginSend? && l.sender.Ready? && WellFormed(m.s.frame) {
      NonEmpty(m.s.frame);
    } else if m == OfReceiver(BeginReceive) {
      EmptyIsReading();
    }
  }

  lemma NonEmpty(frame: seq<byte>)
    requires WellFormed(frame)
    ensures |frame| > 0
  {
  }

  lemma EmptyIsReading()
    ensures Reading([])
  {
  }

  lemma {:induction false} RunKeepsInv(l: Link, moves: seq<Move>)
    requires Inv(l)
    ensures Inv(Run(l, moves))
  {
    if moves != [] {
      RunKeepsInv(l, moves[..|moves| - 1]);
      StepKeepsInv(Run(l, moves[..|moves| - 1]), moves[|moves| - 1]);
    }
  }

  /**
   * Whatever the capacity and however the two sides take turns, the pipe stays within its capacity, and the frames
   * returned are the first of the frames sent; nothing of a frame the sender gave up on is ever returned.
   */
  lemma FramesArriveInOrder(capacity: nat, moves: seq<Move>)
    requires capacity > 0
    ensures var l := Run(Open(capacity), moves);
      && |l.buf| <= capacity && AllFrames(l.sent)
      && l.got <= l.sent
      && l.receiver.Taken() + l.buf == Concat(l.sent[|l.got|..]) + l.sender.Unsent()
  {
    var l := Run(Open(capacity), moves);
    RunKeepsInv(Open(capacity), moves);
    CapacityStays(Open(capacity), moves);
    TailUnfinished(l.sender);
    FramesAgree(l.got, l.receiver.Taken() + l.buf, l.sent, l.sender.Unsent());
  }

  lemma {:induction false} CapacityStays(l: Link, moves: seq<Move>)
    ensures Run(l, moves).capacity == l.capacity
  {
    if moves != [] {
      CapacityStays(l, moves[..|moves| - 1]);
    }
  }

  /** With both ends at rest and the pipe empty, everything sent has been returned. */
  lemma EmptyLinkDeliveredAll(capacity: nat, moves: seq<Move>)
    requires capacity > 0
    requires var l := Run(Open(capacity), moves); l.buf == [] && l.sender.Ready? && l.receiver.Waiting?
    ensures var l := Run(Open(capacity), moves); l.got == l.sent
  {
    var l := Run(Open(capacity), moves);
    FramesArriveInOrder(capacity, moves);
    NoBytesNoFrames(l.sent[|l.got|..]);
  }

  lemma NoBytesNoFrames(frames: seq<seq<byte>>)
    requires AllFrames(frames)
    ensures frames != [] ==> Concat(frames) != []
  {
    if frames != [] {
      var f := frames[0];
      assert f in frames && |f| <= |Concat(frames)|;
    }
  }

  /**
   * A receive fails for good in two ways only: silence with part of a frame taken off the pipe, or a closed stream
   * ending there. Size is never the reason, and the bytes lost are the start of the next frame of the stream.
   */
  lemma WhyReceiveFails(capacity: nat, moves: seq<Move>)
    requires capacity > 0
    requires Run(Open(capacity), moves).receiver.Lost?
    ensures var l := Run(Open(capacity), moves);
      && (l.receiver.error == Timeout || (l.receiver.error == FrameMalformed && l.writeClosed))
      && l.receiver.have != []
      && |l.got| <= |l.sent| && l.receiver.have <= Concat(l.sent[|l.got|..]) + l.sender.Unsent()
  {
    hide AfterRead, AfterWrite, Concat;
    RunKeepsInv(Open(capacity), moves);
    FramesArriveInOrder(capacity, moves);
  }

  /** What a receive still has to see, once the sender is between frames, is a sequence of whole frames. */
  lemma WholeFramesAhead(l: Link) returns (ahead: seq<seq<byte>>)
    requires Inv(l) && l.sender.Ready?
    ensures AllFrames(ahead) && l.receiver.Taken() + l.buf == Concat(ahead) && l.sent == l.got + ahead
  {
    hide Declared, Concat, WellFormed;
    EmptyIsReading();
    FramesAgree(l.got, l.receiver.Taken() + l.buf, l.sent, []);
    ahead := l.sent[|l.got|..];
  }

  /** A whole frame has been taken off the pipe, nothing follows it, and it has not been returned. */
  predicate HoldsWholeFrame(l: Link) {
    l.receiver.Receiving? && l.sent == l.got + [l.receiver.have]
  }

  /**
   * With the sender between frames, a receive is stuck on bytes it has taken exactly when they are the last frame
   * sent, whole, and then that frame has no payload: the code asks the pipe for its zero bytes. On a closed pipe it
   * is told the stream ended and fails as malformed; on an open one it waits, and at the deadline the frame is gone.
   * Otherwise a read pass never fails for good, and a deadline on an empty pipe finds nothing taken to lose.
   */
  lemma ReceiveFromQuietSenderFailsIff(l: Link)
    requires Inv(l) && l.sender.Ready? && l.receiver.Receiving?
    ensures l.buf == [] && l.receiver.have != [] <==> HoldsWholeFrame(l)
    ensures HoldsWholeFrame(l) ==> |l.receiver.have| == HEADER
    ensures HoldsWholeFrame(l) && l.writeClosed ==> AfterRead(l).receiver == Lost(FrameMalformed, l.receiver.have)
    ensures HoldsWholeFrame(l) && !l.writeClosed ==>
      AfterRead(l) == l && ReceiverStep(l, ReceiveTimesOut).receiver == Lost(Timeout, l.receiver.have)
    ensures !HoldsWholeFrame(l) ==> !AfterRead(l).receiver.Lost?
    ensures !HoldsWholeFrame(l) && l.buf == [] ==> ReceiverStep(l, ReceiveTimesOut).receiver == Waiting
  {
    hide Concat, Declared;
    var have := l.receiver.have;
    var ahead := WholeFramesAhead(l);
    if ahead != [] {
      NextFrame(have, l.buf, ahead);
    } else {
      ConcatOfNothing();
    }
    assert ahead == l.sent[|l.got|..] && (l.got + [have])[|l.got|..] == [have];
    ReadKeepsInv(l);
  }

  /** Where a receive stands in the frame it is reading. */
  lemma NextFrame(have: seq<byte>, buf: seq<byte>, ahead: seq<seq<byte>>)
    requires Reading(have) && AllFrames(ahead) && ahead != [] && have + buf == Concat(ahead)
    ensures Needed(have) <= |buf|
    ensures have <= ahead[0]
    ensures buf == [] && have != [] <==> ahead == [have]
    ensures ahead[0] == have ==> |have| == HEADER && Needed(have) == 0
  {
    var f := ahead[0];
    var stream := have + buf;
    assert f in ahead;
    assert stream == f + Concat(ahead[1..]);
    assert forall g <- ahead[1..] :: g in ahead;
    NoBytesNoFrames(ahead[1..]);
    assert have == stream[..|have|] && f == stream[..|f|];
    if |have| >= HEADER {
      DeclaredOfPrefix(have[..HEADER], have);
      assert have[..HEADER] == f[..HEADER];
      DeclaredOfPrefix(f[..HEADER], f);
    }
    if buf == [] && have != [] {
      assert |have| == |f|;
    }
  }

  lemma ConcatOfNothing()
    ensures Concat([]) == []
  {
  }

  /** If every frame sent has a payload, as every protocol message has, no receive loses one to a quiet sender. */
  lemma FramesWithPayloadAreNeverLost(capacity: nat, moves: seq<Move>)
    requires capacity > 0
    requires var l := Run(Open(capacity), moves); l.sender.Ready? && l.receiver.Receiving?
    requires forall f <- Run(Open(capacity), moves).sent :: |f| > HEADER
    ensures var l := Run(Open(capacity), moves);
      && !AfterRead(l).receiver.Lost?
      && (l.buf == [] ==> l.receiver.have == [] && ReceiverStep(l, ReceiveTimesOut).receiver == Waiting)
  {
    hide Run, Concat, AfterRead;
    var l := Run(Open(capacity), moves);
    RunKeepsInv(Open(capacity), moves);
    ReceiveFromQuietSenderFailsIff(l);
    assert |l.got| < |l.sent| ==> l.sent[|l.got|] in l.sent;
  }

  /** Such a frame: sent whole and without error, then reported as malformed. */
  lemma FrameWithoutPayloadIsLost()
    ensures var frame := Zeros(HEADER);
      var l := Run(Open(HEADER), [OfSender(BeginSend(frame)), OfSender(WriteSome), OfSender(ShutdownWrite),
                                  OfReceiver(BeginReceive), OfReceiver(ReadSome), OfReceiver(ReadSome)]);
      l.sent == [frame] && l.got == [] && l.receiver == Lost(FrameMalformed, frame)
  {
    hide Step, Run, Declared;
    var frame := Zeros(HEADER);
    ZerosDeclareNothing();
    SendsWhole(frame);
    ReadsHeaderThenEnd(frame);
    SixSteps(Open(HEADER), OfSender(BeginSend(frame)), OfSender(WriteSome), OfSender(ShutdownWrite),
      OfReceiver(BeginReceive), OfReceiver(ReadSome), OfReceiver(ReadSome));
  }

  /** And with the stream still open: sent whole, taken whole, and dropped at the deadline. */
  lemma FrameWithoutPayloadTimesOut()
    ensures var frame := Zeros(HEADER);
      var l := Run(Open(HEADER), [OfSender(BeginSend(frame)), OfSender(WriteSome), OfReceiver(BeginReceive),
                                  OfReceiver(ReadSome), OfReceiver(ReadSome), OfReceiver(ReceiveTimesOut)]);
      l.sent == [frame] && l.got == [] && !l.writeClosed && l.receiver == Lost(Timeout, frame)
  {
    hide Step, Run, Declared;
    var frame := Zeros(HEADER);
    ZerosDeclareNothing();
    SendsWhole(frame);
    ReadsHeaderThenWaits(frame);
    SixSteps(Open(HEADER), OfSender(BeginSend(frame)), OfSender(WriteSome), OfReceiver(BeginReceive),
      OfReceiver(ReadSome), OfReceiver(ReadSome), OfReceiver(ReceiveTimesOut));
  }

  lemma ReadsHeaderThenWaits(frame: seq<byte>)
    requires |frame| == HEADER && Declared(frame) == 0
    ensures var start := Open(HEADER).(buf := frame, sent := [frame]);
      Step(Step(Step(Step(start, OfReceiver(BeginReceive)), OfReceiver(ReadSome)), OfReceiver(ReadSome)),
           OfReceiver(ReceiveTimesOut))
        == start.(buf := [], receiver := Lost(Timeout, frame))
  {
    hide Declared;
    var start := Open(HEADER).(buf := frame, sent := [frame]);
    assert [] + frame[..HEADER] == frame && frame[HEADER..] == [] && frame + [] == frame;
    assert AfterRead(start.(receiver := Receiving([]))) == start.(buf := [], receiver := Receiving(frame));
  }

  lemma ZerosDeclareNothing()
    ensures Declared(Zeros(HEADER)) == 0
  {
    assert Zeros(HEADER)[4..HEADER] == [0, 0, 0, 0];
    assert [0, 0, 0, 0][..3] == [0, 0, 0] && [0, 0, 0][..2] == [0, 0] && [0, 0][..1] == [0];
    assert FromBE([0]) == 0;
    assert FromBE([0, 0, 0]) == 0;
  }

  lemma SendsWhole(frame: seq<byte>)
    requires |frame| == HEADER && Declared(frame) == 0
    ensures var l := Step(Step(Open(HEADER), OfSender(BeginSend(frame))), OfSender(WriteSome));
      && l == Open(HEADER).(buf := frame, sent := [frame])
      && Step(l, OfSender(ShutdownWrite)) == Open(HEADER).(buf := frame, sent := [frame], writeClosed := true)
  {
    hide Declared;
    assert frame[0..HEADER] == frame && [] + frame == frame && [] + [frame] == [frame];
  }

  lemma ReadsHeaderThenEnd(frame: seq<byte>)
    requires |frame| == HEADER && Declared(frame) == 0
    ensures var start := Open(HEADER).(buf := frame, sent := [frame], writeClosed := true);
      Step(Step(Step(start, OfReceiver(BeginReceive)), OfReceiver(ReadSome)), OfReceiver(ReadSome))
        == start.(buf := [], receiver := Lost(FrameMalformed, frame))
  {
    hide Declared;
    var start := Open(HEADER).(buf := frame, sent := [frame], writeClosed := true);
    assert [] + frame[..HEADER] == frame && frame[HEADER..] == [] && frame + [] == frame;
    assert AfterRead(start.(receiver := Receiving([]))) == start.(buf := [], receiver := Receiving(frame));
  }

  lemma SixSteps(l: Link, a: Move, b: Move, c: Move, d: Move, e: Move, f: Move)
    ensures Run(l, [a, b, c, d, e, f]) == Step(Step(Step(Step(Step(Step(l, a), b), c), d), e), f)
  {
    hide Step;
    assert [a, b, c, d, e, f][..5] == [a, b, c, d, e];
    assert [a, b, c, d, e][..4] == [a, b, c, d];
    assert [a, b, c, d][..3] == [a, b, c];
    assert [a, b, c][..2] == [a, b];
    assert [a, b][..1] == [a];
    assert [a][..0] == [];
    assert Run(l, [a]) == Step(Run(l, []), a);
    assert Run(l, [a, b]) == Step(Step(l, a), b);
    assert Run(l, [a, b, c, d]) == Step(Step(Run(l, [a, b]), c), d);
  }
}
