/**
 * The pipe of the in-process transport and the frame calls that run over it, in place. The other end's turns are
 * inputs: what it does before a call gets the lock, and what it does during each wait, any number of moves each time.
 */
module Loopback {
  import opened Bytes
  import opened Framing
  import opened LinkRuns

  /** After the last entry of `waiting` the deadline passes. */
  datatype Turns<M> = Turns(before: seq<M>, waiting: seq<seq<M>>)

  datatype Pass = Filled | AtEnd | More

  /** How a read pass leaves the loop of a read, if it does. */
  function PassOf(l: Link): Pass
    requires l.receiver.Receiving?
  {
    if l.buf != [] && Min(|l.buf|, Needed(l.receiver.have)) == Needed(l.receiver.have) then Filled
    else if l.writeClosed then AtEnd
    else More
  }

  /** How often the sender, or the receiver, had the lock for a pass over the pipe. */
  ghost function WritePasses(history: seq<Move>): nat {
    multiset(history)[OfSender(WriteSome)]
  }

  ghost function ReadPasses(history: seq<Move>): nat {
    multiset(history)[OfReceiver(ReadSome)]
  }

  class Pipe {
    const capacity: nat
    var buf: seq<byte>
    var writeClosed: bool
    var readerGone: bool
    /** The call in progress at each end, or how it failed. */
    var sender: Sender
    var receiver: Receiver
    ghost var sent: seq<seq<byte>>
    ghost var got: seq<seq<byte>>
    ghost var history: seq<Move>

    ghost function Value(): Link
      reads this
    {
      Link(capacity, buf, writeClosed, readerGone, sender, receiver, sent, got)
    }

    /** The pipe is where its history of moves takes a fresh one. */
    ghost predicate Valid()
      reads this
    {
      && capacity > 0 && |buf| <= capacity && SenderOk(sender)
      && Value() == Run(Open(capacity), history)
    }

    constructor (capacity: nat)
      requires capacity > 0
      ensures Valid() && Value() == Open(capacity) && history == []
    {
      this.capacity := capacity;
      buf, writeClosed, readerGone := [], false, false;
      sender, receiver, sent, got, history := Ready, Waiting, [], [], [];
    }

    /** What every call of either end leaves true: frames returned are the first of the frames sent. */
    lemma ReturnsWhatWasSent()
      requires Valid()
      ensures got <= sent && AllFrames(sent)
      ensures receiver.Lost? ==> receiver.error == Timeout || (receiver.error == FrameMalformed && writeClosed)
    {
      hide Run, Concat;
      FramesArriveInOrder(capacity, history);
      if receiver.Lost? {
        WhyReceiveFails(capacity, history);
      }
    }

    lemma StaysValid(before: Link, m: Move)
      requires before == Run(Open(capacity), history)
      ensures Step(before, m) == Run(Open(capacity), history + [m])
      ensures capacity > 0 ==> |Step(before, m).buf| <= capacity && SenderOk(Step(before, m).sender)
    {
      hide Run, Step, Concat;
      RunAppend(Open(capacity), history, m);
      if capacity > 0 {
        RunKeepsInv(Open(capacity), history + [m]);
        CapacityStays(Open(capacity), history + [m]);
      }
    }

    lemma WriteStaysValid()
      requires Valid() && sender.Sending?
      ensures AfterWrite(Value()) == Run(Open(capacity), history + [OfSender(WriteSome)])
      ensures |AfterWrite(Value()).buf| <= capacity && SenderOk(AfterWrite(Value()).sender)
      ensures sender.off < |sender.frame|
    {
      hide Run, AfterWrite;
      StaysValid(Value(), OfSender(WriteSome));
    }

    lemma ReadStaysValid()
      requires Valid() && receiver.Receiving?
      ensures AfterRead(Value()) == Run(Open(capacity), history + [OfReceiver(ReadSome)])
      ensures |AfterRead(Value()).buf| <= capacity && SenderOk(AfterRead(Value()).sender)
    {
      hide Run, AfterRead, SenderOk;
      StaysValid(Value(), OfReceiver(ReadSome));
    }

    /** One hold of the lock by the sender. */
    method WriteOnce() returns (n: nat)
      requires Valid() && sender.Sending?
      modifies this
      ensures Valid() && Value() == AfterWrite(old(Value()))
      ensures history == old(history) + [OfSender(WriteSome)]
      ensures n == if old(readerGone) then 0 else old(RoomFor(Value()))
    {
      hide Run, WellFormed, SenderOk, Step;
      var frame, off := sender.frame, sender.off;
      WriteStaysValid();
      history := history + [OfSender(WriteSome)];
      if readerGone {
        sender := if off == 0 then Ready else Broken(frame, off);
        return 0;
      }
      var want := Min(|frame| - off, WRITE_CHUNK);
      n := Min(capacity - |buf|, want);
      if n > 0 {
        buf := buf + frame[off..off + n];
        if off + n == |frame| {
          sender, sent := Ready, sent + [frame];
        } else {
          sender := Sending(frame, off + n);
        }
      }
    }

    /** One hold of the lock by the receiver. */
    method ReadOnce() returns (p: Pass, taken: seq<byte>)
      requires Valid() && receiver.Receiving?
      modifies this
      ensures Valid() && Value() == AfterRead(old(Value()))
      ensures history == old(history) + [OfReceiver(ReadSome)]
      ensures p == old(PassOf(Value())) && taken == old(buf[..Min(|buf|, Needed(receiver.have))])
    {
      hide Run, WellFormed, Declared, SenderOk, Step;
      ReadStaysValid();
      history := history + [OfReceiver(ReadSome)];
      var have := receiver.have;
      var inHeader := |have| < HEADER;
      var missing := Needed(have);
      taken := [];
      if buf != [] {
        var take := Min(|buf|, missing);
        taken, buf := buf[..take], buf[take..];
        have := have + taken;
        if take == missing {
          if !inHeader {
            receiver, got := Waiting, got + [have];
          } else if Declared(have) > MAX_PAYLOAD {
            receiver := Lost(FrameTooLarge(Declared(have)), have);
          } else {
            receiver := Receiving(have);
          }
          return Filled, taken;
        }
      } else {
        NothingTaken(have, buf);
      }
      if writeClosed {
        receiver := if have == [] then Waiting else Lost(FrameMalformed, have);
        return AtEnd, taken;
      }
      receiver := Receiving(have);
      return More, taken;
    }

    /** Starts a frame that passes the checks, if no call is in progress. */
    method BeginSending(frame: seq<byte>)
      requires Valid()
      modifies this
      ensures Valid() && Value() == SenderStep(old(Value()), BeginSend(frame))
      ensures history == old(history) + [OfSender(BeginSend(frame))]
    {
      StaysValid(Value(), OfSender(BeginSend(frame)));
      hide Run, WellFormed, SenderOk;
      history := history + [OfSender(BeginSend(frame))];
      var passes := Passes(frame);
      if sender.Ready? && passes {
        sender := Sending(frame, 0);
      }
    }

    /** The deadline of a send passes. */
    method GiveUpSending()
      requires Valid()
      modifies this
      ensures Valid() && Value() == SenderStep(old(Value()), SendTimesOut)
      ensures history == old(history) + [OfSender(SendTimesOut)]
    {
      StaysValid(Value(), OfSender(SendTimesOut));
      hide Run, WellFormed, SenderOk;
      history := history + [OfSender(SendTimesOut)];
      if sender.Sending? {
        sender := if sender.off == 0 then Ready else Broken(sender.frame, sender.off);
      }
    }

    /** Half-closes the stream; a sender busy with a frame cannot call this. */
    method CloseWrites()
      requires Valid()
      modifies this
      ensures Valid() && Value() == SenderStep(old(Value()), ShutdownWrite)
      ensures history == old(history) + [OfSender(ShutdownWrite)]
    {
      StaysValid(Value(), OfSender(ShutdownWrite));
      hide Run, WellFormed, SenderOk;
      history := history + [OfSender(ShutdownWrite)];
      if !sender.Sending? {
        writeClosed := true;
      }
    }

    /** A turn of the sender while the receiver is elsewhere. */
    method SenderTurn(m: SenderMove)
      requires Valid()
      modifies this
      ensures Valid() && receiver == old(receiver) && got == old(got) && old(history) <= history
      ensures Value() == SenderStep(old(Value()), m) && ReadPasses(history) == ReadPasses(old(history))
    {
      hide Run, AfterWrite, WellFormed, SenderOk;
      match m {
        case BeginSend(frame) => BeginSending(frame);
        case WriteSome =>
          if sender.Sending? {
            WriteKeepsReceiver(Value());
            var _ := WriteOnce();
          }
        case SendTimesOut => GiveUpSending();
        case ShutdownWrite => CloseWrites();
      }
    }

    method BeginReceiving()
      requires Valid()
      modifies this
      ensures Valid() && Value() == ReceiverStep(old(Value()), BeginReceive)
      ensures history == old(history) + [OfReceiver(BeginReceive)]
    {
      StaysValid(Value(), OfReceiver(BeginReceive));
      hide Run, WellFormed, SenderOk;
      history := history + [OfReceiver(BeginReceive)];
      if receiver.Waiting? {
        receiver := Receiving([]);
      }
    }

    /** The deadline of a receive passes; bytes already taken are dropped. */
    method GiveUpReceiving()
      requires Valid()
      modifies this
      ensures Valid() && Value() == ReceiverStep(old(Value()), ReceiveTimesOut)
      ensures history == old(history) + [OfReceiver(ReceiveTimesOut)]
    {
      StaysValid(Value(), OfReceiver(ReceiveTimesOut));
      hide Run, WellFormed, SenderOk;
      history := history + [OfReceiver(ReceiveTimesOut)];
      if receiver.Receiving? {
        receiver := if receiver.have == [] then Waiting else Lost(Timeout, receiver.have);
      }
    }

    /** The reading end closes; writes fail from now on. */
    method CloseReads()
      requires Valid()
      modifies this
      ensures Valid() && Value() == ReceiverStep(old(Value()), CloseReceiver)
      ensures history == old(history) + [OfReceiver(CloseReceiver)]
    {
      StaysValid(Value(), OfReceiver(CloseReceiver));
      hide Run, WellFormed, SenderOk;
      history := history + [OfReceiver(CloseReceiver)];
      if !receiver.Receiving? {
        readerGone := true;
      }
    }

    /** A turn of the receiver while the sender is elsewhere. */
    method ReceiverTurn(m: ReceiverMove)
      requires Valid()
      modifies this
      ensures Valid() && sender == old(sender) && sent == old(sent) && old(history) <= history
      ensures Value() == ReceiverStep(old(Value()), m) && (old(readerGone) ==> readerGone)
      ensures WritePasses(history) == WritePasses(old(history))
    {
      hide Run, AfterRead, WellFormed, SenderOk;
      match m {
        case BeginReceive => BeginReceiving();
        case ReadSome =>
          if receiver.Receiving? {
            ReadKeepsSender(Value());
            assert AfterRead(Value()).readerGone == readerGone by { ReadKeepsReader(Value()); }
            var _, _ := ReadOnce();
          }
        case ReceiveTimesOut => GiveUpReceiving();
        case CloseReceiver => CloseReads();
      }
    }

    method ReceiverTurns(moves: seq<ReceiverMove>)
      requires Valid()
      modifies this
      ensures Valid() && sender == old(sender) && sent == old(sent) && old(history) <= history
      ensures (old(readerGone) ==> readerGone) && WritePasses(history) == WritePasses(old(history))
    {
      hide Run, ReceiverStep, WellFormed;
      var i := 0;
      while i < |moves|
        invariant 0 <= i <= |moves| && (old(readerGone) ==> readerGone) && WritePasses(history) == WritePasses(old(history))
        invariant Valid() && sender == old(sender) && sent == old(sent) && old(history) <= history
      {
        ReceiverTurn(moves[i]);
        i := i + 1;
      }
    }

    method SenderTurns(moves: seq<SenderMove>)
      requires Valid()
      modifies this
      ensures Valid() && receiver == old(receiver) && got == old(got) && old(history) <= history
      ensures ReadPasses(history) == ReadPasses(old(history))
    {
      hide Run, SenderStep, WellFormed;
      var i := 0;
      while i < |moves|
        invariant 0 <= i <= |moves| && ReadPasses(history) == ReadPasses(old(history))
        invariant Valid() && receiver == old(receiver) && got == old(got) && old(history) <= history
      {
        SenderTurn(moves[i]);
        i := i + 1;
      }
    }

    /**
     * At least one byte goes out, or the call fails having moved none: the reader gone, or the pipe full at every look,
     * one before each wait and one after the last.
     */
    method WritePartial(turns: Turns<ReceiverMove>) returns (r: Result<nat, TransportError>)
      requires Valid() && sender.Sending?
      modifies this
      ensures Valid() && old(history) <= history
      ensures r.Ok? ==> 1 <= r.value <= Min(|old(sender).frame| - old(sender).off, WRITE_CHUNK)
      ensures r.Ok? && old(sender).off + r.value == |old(sender).frame| ==>
        sender == Ready && sent == old(sent) + [old(sender).frame]
      ensures r.Ok? && old(sender).off + r.value < |old(sender).frame| ==>
        sender == Sending(old(sender).frame, old(sender).off + r.value) && sent == old(sent)
      ensures r.Err? ==>
        && sent == old(sent)
        && sender == if old(sender).off == 0 then Ready else Broken(old(sender).frame, old(sender).off)
      ensures r.Err? ==> (r.error == ClosedByPeer && readerGone) || (r.error == Timeout && |buf| == capacity)
      ensures old(readerGone) ==> r == Err(ClosedByPeer)
      ensures WritePasses(history) > WritePasses(old(history))
      ensures r == Err(Timeout) ==> WritePasses(history) == WritePasses(old(history)) + |turns.waiting| + 1
    {
      hide Run, WellFormed;
      ReceiverTurns(turns.before);
      var i := 0;
      while true
        invariant 0 <= i <= |turns.waiting| && (old(readerGone) ==> readerGone)
        invariant WritePasses(history) == WritePasses(old(history)) + i
        invariant Valid() && sender == old(sender) && sent == old(sent) && old(history) <= history
        decreases |turns.waiting| - i
      {
        var gone := readerGone;
        var n := WriteOnce();
        if gone {
          return Err(ClosedByPeer);
        }
        if n > 0 {
          return Ok(n);
        }
        if i == |turns.waiting| {
          GiveUpSending();
          return Err(Timeout);
        }
        ReceiverTurns(turns.waiting[i]);
        i := i + 1;
      }
    }

    /**
     * Every write of a frame moves at least one byte, so the loop ends: either the whole frame is out, or the call
     * reports why not and the frame does not count as sent. A frame that fails the checks leaves no trace.
     */
    method SendFrame(frame: seq<byte>, peer: nat -> Turns<ReceiverMove>) returns (r: Result<(), TransportError>)
      requires Valid() && sender.Ready?
      modifies this
      ensures Valid() && old(history) <= history
      ensures r.Ok? ==> WellFormed(frame) && sender == Ready && sent == old(sent) + [frame]
      ensures r.Err? ==>
        && sent == old(sent)
        && (sender == Ready || (sender.Broken? && sender.frame == frame && 0 < sender.off < |frame|))
      ensures !WellFormed(frame) ==>
        && Value() == old(Value()) && r.Err?
        && r.error == if |frame| >= HEADER && Declared(frame) > MAX_PAYLOAD then FrameTooLarge(Declared(frame))
                      else FrameMalformed
      ensures WellFormed(frame) && r.Err? ==>
        (r.error == Timeout && |buf| == capacity) || (r.error == ClosedByPeer && readerGone)
      ensures WellFormed(frame) && old(readerGone) ==> r == Err(ClosedByPeer)
      ensures r == Err(Timeout) ==>
        exists k: nat :: WritePasses(history) - WritePasses(old(history)) > |peer(k).waiting|
    {
      hide Run, AfterWrite;
      var problem := CheckFrame(frame);
      if problem.Some? {
        return Err(problem.value);
      }
      BeginSending(frame);
      r := WriteAll(frame, peer);
    }

    method WriteAll(frame: seq<byte>, peer: nat -> Turns<ReceiverMove>) returns (r: Result<(), TransportError>)
      requires Valid() && sender == Sending(frame, 0) && |frame| > 0
      modifies this
      ensures Valid() && old(history) <= history
      ensures r.Ok? ==> sender == Ready && sent == old(sent) + [frame]
      ensures r.Err? ==>
        && sent == old(sent)
        && (sender == Ready || (sender.Broken? && sender.frame == frame && 0 < sender.off < |frame|))
      ensures r.Err? ==> (r.error == Timeout && |buf| == capacity) || (r.error == ClosedByPeer && readerGone)
      ensures old(readerGone) ==> r == Err(ClosedByPeer)
      ensures r == Err(Timeout) ==>
        exists k: nat :: WritePasses(history) - WritePasses(old(history)) > |peer(k).waiting|
    {
      hide Run, WellFormed;
      var off, k: nat := 0, 0;
      while off < |frame|
        invariant 0 <= off <= |frame| && Valid() && old(history) <= history && (old(readerGone) ==> off == 0 && readerGone)
        invariant WritePasses(history) >= WritePasses(old(history))
        invariant if off < |frame| then sender == Sending(frame, off) && sent == old(sent)
                  else sender == Ready && sent == old(sent) + [frame]
        decreases |frame| - off
      {
        var n := WritePartial(peer(k));
        if n.Err? {
          return Err(n.error);
        }
        off, k := off + n.value, k + 1;
      }
      r := Ok(());
    }

    /**
     * Fills the header, or the payload after it: `Ok(true)` when all of it arrived, `Ok(false)` when the stream had
     * ended before any of it did. A deadline is not taken early: the pipe was looked at before each wait and after the last.
     */
    method ReadFull(turns: Turns<SenderMove>) returns (r: Result<bool, TransportError>, have: seq<byte>)
      requires Valid() && receiver.Receiving?
      modifies this
      ensures Valid() && old(history) <= history && old(receiver).have <= have
      ensures r == Ok(true) ==> |have| == |old(receiver).have| + Needed(old(receiver).have)
      ensures r == Ok(true) && |old(receiver).have| >= HEADER ==> receiver == Waiting && got == old(got) + [have]
      ensures r == Ok(true) && |old(receiver).have| < HEADER ==> got == old(got) && receiver == AfterHeader(have)
      ensures r == Ok(false) ==> have == old(receiver).have && buf == [] && writeClosed
      ensures r.Err? ==>
        (r.error == FrameMalformed && writeClosed && have != []) || (r.error == Timeout && !writeClosed)
      ensures r.Err? ==> buf == []
      ensures ReadPasses(history) > ReadPasses(old(history))
      ensures r == Err(Timeout) ==> ReadPasses(history) == ReadPasses(old(history)) + |turns.waiting| + 1
      ensures r == Err(FrameMalformed) ==> |old(receiver).have| < |have| < |old(receiver).have| + Needed(old(receiver).have)
      ensures r != Ok(true) ==>
        && got == old(got)
        && receiver == if have == [] then Waiting else Lost(if r.Err? then r.error else FrameMalformed, have)
    {
      hide Run, WellFormed, Declared;
      have := receiver.have;
      var off, i := 0, 0;
      SenderTurns(turns.before);
      while true
        invariant 0 <= i <= |turns.waiting|
        invariant Valid() && old(history) <= history && got == old(got)
        invariant receiver == Receiving(have) && |have| == |old(receiver).have| + off && old(receiver).have <= have
        invariant off == 0 || off < Needed(old(receiver).have)
        invariant ReadPasses(history) == ReadPasses(old(history)) + i
        decreases |turns.waiting| - i
      {
        MissingAfter(old(receiver).have, have);
        var p, taken := ReadOnce();
        have, off := have + taken, off + |taken|;
        if p == Filled {
          return Ok(true), have;
        }
        if p == AtEnd {
          return if off == 0 then Ok(false) else Err(FrameMalformed), have;
        }
        if i == |turns.waiting| {
          GiveUpReceiving();
          return Err(Timeout), have;
        }
        SenderTurns(turns.waiting[i]);
        i := i + 1;
      }
    }

    /**
     * A whole frame or an error, never part of a frame. The peer closing between frames is the only way to
     * `ClosedByPeer`; bytes taken off the pipe before any other error are gone.
     */
    method RecvFrame(header: Turns<SenderMove>, payload: Turns<SenderMove>)
      returns (r: Result<seq<byte>, TransportError>)
      requires Valid() && receiver.Waiting?
      modifies this
      ensures Valid() && old(history) <= history
      ensures r.Ok? ==> WellFormed(r.value) && receiver == Waiting && got == old(got) + [r.value]
      ensures r.Err? ==> got == old(got) && (receiver == Waiting || (receiver.Lost? && receiver.error == r.error))
      ensures r == Err(ClosedByPeer) ==> receiver == Waiting && buf == [] && writeClosed
      ensures r.Err? && receiver == Waiting ==> r.error == ClosedByPeer || r.error == Timeout
      ensures r.Err? ==>
        || (r.error == Timeout && buf == [] && !writeClosed)
        || (r.error in {ClosedByPeer, FrameMalformed} && buf == [] && writeClosed)
        || (r.error.FrameTooLarge? && r.error.len > 65568)
      ensures r == Err(Timeout) ==>
        var passes := ReadPasses(history) - ReadPasses(old(history));
        passes > |header.waiting| || passes > |payload.waiting| + 1
    {
      hide Run, AfterRead;
      BeginReceiving();
      var full, have := ReadFull(header);
      if full.Err? {
        return Err(full.error);
      }
      if !full.value {
        return Err(ClosedByPeer);
      }
      if Declared(have) > MAX_PAYLOAD {
        return Err(FrameTooLarge(Declared(have)));
      }
      ghost var head := have;
      full, have := ReadFull(payload);
      if full.Err? {
        return Err(full.error);
      }
      if !full.value {
        return Err(FrameMalformed);
      }
      DeclaredOfPrefix(head, have);
      return Ok(have);
    }
  }

  lemma NothingTaken(have: seq<byte>, buf: seq<byte>)
    ensures have + buf[..0] == have && buf[0..] == buf && buf[..0] == []
  {
  }

  method Passes(frame: seq<byte>) returns (ok: bool)
    ensures ok <==> WellFormed(frame)
  {
    var problem := CheckFrame(frame);
    ok := problem.None?;
  }

  lemma ReadKeepsSender(l: Link)
    requires l.receiver.Receiving?
    ensures AfterRead(l).sender == l.sender && AfterRead(l).sent == l.sent
  {
  }

  lemma ReadKeepsReader(l: Link)
    requires l.receiver.Receiving?
    ensures AfterRead(l).readerGone == l.readerGone
  {
  }

  lemma WriteKeepsReceiver(l: Link)
    requires l.sender.Sending?
    ensures AfterWrite(l).receiver == l.receiver && AfterWrite(l).got == l.got
  {
  }

  /** How a receive stands once its header is complete. */
  function AfterHeader(have: seq<byte>): Receiver
    requires |have| >= HEADER
  {
    if Declared(have) > MAX_PAYLOAD then Lost(FrameTooLarge(Declared(have)), have) else Receiving(have)
  }

  lemma MissingAfter(start: seq<byte>, have: seq<byte>)
    requires start <= have && |have| - |start| <= Needed(start)
    requires |start| >= HEADER || |have| < HEADER || start == have
    ensures Needed(have) == Needed(start) - (|have| - |start|)
  {
    if |start| >= HEADER {
      DeclaredOfPrefix(start, have);
    }
  }
}
