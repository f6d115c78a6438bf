/** The full-OTP data pump: updates its planes and counters in place, as `PumpSpec.dfy` says. */
module Pump {
  import opened Bytes
  import opened Types
  import opened Wire
  import opened Pad
  import opened Record
  import opened PumpSpec

  /** A source of bundles with a local pointer. It may also fail for reasons of its own. */
  class PadSource {
    var pointer: nat

    constructor (pointer: nat)
      ensures this.pointer == pointer
    {
      this.pointer := pointer;
    }

    method ReserveNextBundle() returns (answer: Answer)
      modifies this
      ensures answer.Ok? ==> answer.value.base == old(pointer) && pointer == old(pointer) + 128
    {
      answer := *;
      if answer.Ok? && answer.value.base != pointer {
        answer := Err(ReserveFailed("persistence-uncertain"));
      }
      pointer := pointer + 128;
    }

    /** Adopts the announced range, only if it is exactly where the local pointer stands. */
    method ReserveBundleAt(base: u64) returns (answer: Answer)
      modifies this
      ensures answer.Ok? ==> answer.value.base == base == old(pointer) && pointer == old(pointer) + 128
      ensures base != old(pointer) ==> answer == Err(PointerMismatch(old(pointer), base))
    {
      if pointer != base {
        return Err(PointerMismatch(pointer, base));
      }
      answer := ReserveNextBundle();
    }
  }

  class FullOtpPump {
    const role: Role
    const mac: Mac
    const c2s: PadStream
    const s2c: PadStream
    var c2sNext: Option<Stream>
    var s2cNext: Option<Stream>
    var sendSeq: u64
    var recvSeq: u64
    var nextBundleId: nat
    var nextAcked: bool
    var pendingAck: Option<u64>
    var consumedC2s: nat
    var consumedS2c: nat
    var closed: bool

    ghost const Repr: set<object>

    ghost predicate Valid()
      reads this, Repr
    {
      && Repr == {this, c2s, s2c, c2s.buf, s2c.buf} && c2s != s2c && c2s.buf != s2c.buf
      && c2s.Valid() && s2c.Valid() && Value().Valid()
    }

    ghost function Value(): PumpState
      requires c2s.Valid() && s2c.Valid()
      reads this, c2s, s2c, c2s.buf, s2c.buf
    {
      PumpState(role, Plane(c2s.Value(), c2sNext), Plane(s2c.Value(), s2cNext), sendSeq, recvSeq, nextBundleId,
                nextAcked, pendingAck, consumedC2s, consumedS2c, closed)
    }

    constructor (role: Role, mac: Mac, base: u64, bundle0: Bundle)
      requires base + 128 <= U64_MAX
      ensures Valid() && fresh(Repr) && Value() == New(role, base, bundle0) && this.mac == mac && this.role == role
    {
      this.role, this.mac := role, mac;
      var front := new PadStream.FromHalf(0, base, HalfOf(bundle0, ClientToServer));
      var back := new PadStream.FromHalf(0, base + 64, HalfOf(bundle0, ServerToClient));
      c2s, s2c := front, back;
      c2sNext, s2cNext, sendSeq, recvSeq, nextBundleId := None, None, 0, 0, 1;
      nextAcked, pendingAck, consumedC2s, consumedS2c, closed := false, None, 0, 0, false;
      Repr := {this, front, back, front.buf, back.buf};
    }

    method CloseAndWaste()
      requires Valid()
      modifies Repr
      ensures Valid() && Value() == old(Value()).Closed()
    {
      c2sNext, s2cNext := None, None;
      c2s.Waste();
      s2c.Waste();
      closed := true;
    }

    /** Idempotent. */
    method CloseNormally()
      requires Valid()
      modifies Repr
      ensures Valid() && Value() == if old(closed) then old(Value()) else old(Value()).Closed()
    {
      if !closed {
        CloseAndWaste();
      }
    }

    method RefreshAckStateAfterSwitch()
      modifies this`nextAcked
      ensures nextAcked == (old(nextAcked) && (c2sNext.Some? || s2cNext.Some?))
    {
      if c2sNext.None? && s2cNext.None? {
        nextAcked := false;
      }
    }

    method Switch(d: Direction)
      requires Valid() && Value().PlaneOf(d).next.Some?
      modifies Repr
      ensures Valid() && Value() == old(Value()).Switched(d)
    {
      var spent;
      if d == ClientToServer {
        spent := c2s.RetireInto(c2sNext.value);
        c2sNext := None;
      } else {
        spent := s2c.RetireInto(s2cNext.value);
        s2cNext := None;
      }
      RefreshAckStateAfterSwitch();
    }

    method MaxRecordLen(d: Direction) returns (n: nat)
      requires Valid()
      ensures n == Value().PlaneOf(d).current.MaxRecordLen()
    {
      var cursor := if d == ClientToServer then c2s.cursor else s2c.cursor;
      var room := if PAD_HALF - cursor < MAC_KEY_LEN then 0 else PAD_HALF - cursor - MAC_KEY_LEN;
      n := Min(room, MAX_CIPHERTEXT_LEN);
    }

    method Send(plaintext: seq<byte>) returns (r: Result<SendOutcome, SendError>)
      requires Valid()
      modifies Repr
      ensures Valid() && (Value(), r) == PumpSpec.Send(mac, old(Value()), plaintext)
      ensures r.Ok? && r.value.Sent? ==> (r.value.needPad <==> 4096 - (if role == Client then c2s else s2c).cursor < 1024)
    {
      if closed {
        return Err(SendClosed);
      }
      if plaintext == [] {
        return Err(EmptyPlaintext);
      }
      var d := role.SendDirection();
      var room := MaxRecordLen(d);
      if room == 0 {
        var ready := (if d == ClientToServer then c2sNext.Some? else s2cNext.Some?) && (role == Client || nextAcked);
        if !ready {
          return Ok(Backpressure);
        }
        Switch(d);
      }
      r := SendCurrent(plaintext);
    }

    method SendCurrent(plaintext: seq<byte>) returns (r: Result<SendOutcome, SendError>)
      requires Valid() && plaintext != []
      modifies Repr
      ensures Valid() && (Value(), r) == SendHere(mac, old(Value()), plaintext)
      ensures r.Ok? ==> r.value.Sent? &&
                        (r.value.needPad <==> 4096 - (if role == Client then c2s else s2c).cursor < 1024)
    {
      hide SealedRecord, Decode, Burned, Mixed, XorSeq;
      var d := role.SendDirection();
      var fit := MaxRecordLen(d);
      var l := Min(|plaintext|, fit);
      var stream := if d == ClientToServer then c2s else s2c;
      ghost var before := Value();
      var sealed := SealRecord(mac, stream, d, sendSeq, plaintext[..l]);
      if sealed.Err? {
        CloseAndWaste();
        return Err(Internal);
      }
      ghost var spent := before.SetPlane(d, before.PlaneOf(d).(current := before.PlaneOf(d).current.Spent(l)));
      assert Value() == spent;
      if sendSeq == U64_MAX {
        CloseAndWaste();
        return Err(SequenceExhausted);
      }
      sendSeq := sendSeq + 1;
      if d == ClientToServer {
        consumedC2s := consumedC2s + MAC_KEY_LEN + l;
      } else {
        consumedS2c := consumedS2c + MAC_KEY_LEN + l;
      }
      r := Ok(Sent(sealed.value, l, PAD_HALF - stream.cursor < LOW_WATER));
    }

    method Receive(frame: seq<byte>) returns (r: Result<Received, OtpError>)
      requires Valid()
      modifies Repr
      ensures Valid() && (Value(), r) == PumpSpec.Receive(mac, old(Value()), frame)
      ensures r.Ok? ==> (r.value.needPad <==> 4096 - (if role == Client then s2c else c2s).cursor < 1024)
    {
      if closed {
        return Err(OtpError.Closed);
      }
      var d := role.SendDirection().Opposite();
      var peek := Decode(frame);
      if peek.Err? {
        return Err(WireFormat(peek.error));
      }
      if peek.value.direction != d {
        CloseAndWaste();
        return Err(WrongDirection);
      }
      var id := if d == ClientToServer then c2s.bundleId else s2c.bundleId;
      if peek.value.bundleId == id + 1 {
        var next := if d == ClientToServer then c2sNext else s2cNext;
        if next.None? || next.value.bundleId != peek.value.bundleId {
          CloseAndWaste();
          return Err(BundleMismatch);
        }
        Switch(d);
      }
      r := ReceiveCurrent(frame);
    }

    method ReceiveCurrent(frame: seq<byte>) returns (r: Result<Received, OtpError>)
      requires Valid()
      modifies Repr
      ensures Valid() && (Value(), r) == ReceiveHere(mac, old(Value()), frame)
      ensures r.Ok? ==> (r.value.needPad <==> 4096 - (if role == Client then s2c else c2s).cursor < 1024)
    {
      hide Open, Decode, Burned, Mixed, XorSeq;
      var d := role.SendDirection().Opposite();
      var stream := if d == ClientToServer then c2s else s2c;
      ghost var before := Value();
      var want := OpenExpectation(d, stream.bundleId, stream.baseSegment, recvSeq);
      var plaintext := OpenRecord(mac, stream, want, frame);
      assert Value() == before.SetPlane(d, before.PlaneOf(d).(current := stream.Value()));
      if plaintext.Err? {
        assert stream.Value().Wasted() == before.PlaneOf(d).current.Wasted();
        CloseAndWaste();
        return Err(plaintext.error);
      }
      var l := |plaintext.value|;
      if d == ClientToServer {
        consumedC2s := consumedC2s + MAC_KEY_LEN + l;
      } else {
        consumedS2c := consumedS2c + MAC_KEY_LEN + l;
      }
      var needPad := PAD_HALF - stream.cursor < LOW_WATER;
      if recvSeq == U64_MAX {
        CloseAndWaste();
        return Err(OtpError.Closed);
      }
      recvSeq := recvSeq + 1;
      r := Ok(Received(plaintext.value, needPad));
    }

    /** `answer` is what the source said, if it was asked. */
    method ServerPrefetch(source: PadSource) returns (r: Result<Option<PumpAction>, PadSourceError>, ghost answer: Answer)
      requires Valid() && source !in Repr && (Prefetches(Value()) ==> nextBundleId < U64_MAX)
      modifies Repr, source
      ensures Valid() && (Value(), r) == PumpSpec.ServerPrefetch(old(Value()), answer)
    {
      answer := Err(ReserveFailed("none"));
      if closed {
        return Ok(None), answer;
      }
      if role != Server {
        CloseAndWaste();
        return Err(ReserveFailed("coordinator-must-be-server")), answer;
      }
      if c2sNext.Some? || s2cNext.Some? {
        return Ok(None), answer;
      }
      var supply := source.ReserveNextBundle();
      answer := supply;
      if supply.Err? {
        CloseAndWaste();
        return Err(supply.error), answer;
      }
      var id := nextBundleId;
      Adopt(id, supply.value.base, supply.value.flat);
      nextAcked := false;
      pendingAck := Some(id);
      r := Ok(Some(SendPadOffer(id, supply.value.base)));
    }

    method Adopt(id: nat, base: u64, flat: Bundle)
      requires Valid() && id == nextBundleId < U64_MAX && base + 128 <= U64_MAX
      modifies this
      ensures Valid() && Value() == Adopted(old(Value()), id, base, flat)
    {
      c2sNext := Some(FreshStream(id, base, flat, ClientToServer));
      s2cNext := Some(FreshStream(id, base, flat, ServerToClient));
      nextBundleId := nextBundleId + 1;
    }

    method OnControl(msg: PadControl, source: PadSource) returns (r: Result<seq<PumpAction>, PumpError>, ghost answer: Answer)
      requires Valid() && source !in Repr && (AsksSource(Value(), msg) ==> nextBundleId < U64_MAX)
      modifies Repr, source
      ensures Valid() && Answers(answer, msg) && (Value(), r) == PumpSpec.OnControl(old(Value()), msg, answer)
    {
      answer := Err(ReserveFailed("none"));
      if closed {
        return Err(DataError(OtpError.Closed)), answer;
      }
      match msg {
        case PadNeed =>
          if role != Server {
            CloseAndWaste();
            return Err(DataError(OtpError.Closed)), answer;
          }
          var action;
          action, answer := ServerPrefetch(source);
          r := match action
               case Ok(None) => Ok([])
               case Ok(Some(a)) => Ok([a])
               case Err(e) => Err(SourceError(e));
        case PadOffer(id, base) =>
          if role != Client {
            CloseAndWaste();
            return Err(DataError(OtpError.Closed)), answer;
          }
          if id != nextBundleId {
            CloseAndWaste();
            return Err(DataError(BundleMismatch)), answer;
          }
          if c2sNext.Some? || s2cNext.Some? {
            CloseAndWaste();
            return Err(DataError(BundleMismatch)), answer;
          }
          var supply := source.ReserveBundleAt(base);
          answer := supply;
          if supply.Err? {
            CloseAndWaste();
            return Err(SourceError(supply.error)), answer;
          }
          Adopt(id, base, supply.value.flat);
          r := Ok([SendPadAck(id)]);
        case PadAck(id) =>
          if role != Server {
            CloseAndWaste();
            return Err(DataError(OtpError.Closed)), answer;
          }
          if pendingAck != Some(id) {
            CloseAndWaste();
            return Err(DataError(BundleMismatch)), answer;
          }
          nextAcked := true;
          pendingAck := None;
          r := Ok([]);
        case Close =>
          CloseNormally();
          r := Ok([]);
      }
    }
  }
}
