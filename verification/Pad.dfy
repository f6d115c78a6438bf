/**
 * One direction of a bundle: 4096 pad bytes and a cursor. `Stream` is the value a `PadStream` object stands
 * for; the object's methods burn the bytes they use in place.
 */
module Pad {
  import opened Bytes
  import opened Types
  import opened Wire

  const BUNDLE_BYTES := 2 * PAD_HALF
  const LOW_WATER := 1024

  type Half = s: seq<byte> | |s| == PAD_HALF witness Zeros(PAD_HALF)
  type Bundle = s: seq<byte> | |s| == BUNDLE_BYTES witness Zeros(BUNDLE_BYTES)

  datatype Stream = Stream(bundleId: nat, baseSegment: nat, buf: Half, cursor: nat) {
    predicate Valid() {
      cursor <= PAD_HALF && bundleId <= U64_MAX && baseSegment <= U64_MAX
    }

    function Remaining(): nat
      requires Valid()
    {
      PAD_HALF - cursor
    }

    function MaxRecordLen(): nat
      requires Valid()
    {
      var room := if Remaining() < MAC_KEY_LEN then 0 else Remaining() - MAC_KEY_LEN;
      if room < MAX_CIPHERTEXT_LEN then room else MAX_CIPHERTEXT_LEN
    }

    predicate Fits(l: nat)
      requires Valid()
    {
      Remaining() >= MAC_KEY_LEN + l
    }

    predicate BelowLowWater()
      requires Valid()
    {
      Remaining() < LOW_WATER
    }

    function MacKey(): Bytes32
      requires Valid() && Fits(0)
    {
      buf[cursor..cursor + MAC_KEY_LEN]
    }

    function PadBytes(l: nat): (pad: seq<byte>)
      requires Valid() && Fits(l)
      ensures |pad| == l
    {
      buf[cursor + MAC_KEY_LEN..cursor + MAC_KEY_LEN + l]
    }

    /** The key bytes gone, the cursor not moved. */
    function KeyTaken(): Stream
      requires Valid() && Fits(0)
    {
      this.(buf := Burned(buf, cursor, cursor + MAC_KEY_LEN))
    }

    /** One record of `l` bytes used up. */
    function Spent(l: nat): Stream
      requires Valid() && Fits(l)
    {
      this.(buf := Burned(buf, cursor, cursor + MAC_KEY_LEN + l), cursor := cursor + MAC_KEY_LEN + l)
    }

    function Wasted(): Stream {
      this.(buf := Zeros(PAD_HALF), cursor := PAD_HALF)
    }
  }

  /** `buf` with `[from, to)` zeroed. */
  function Burned(buf: Half, from: nat, to: nat): Half
    requires from <= to <= PAD_HALF
  {
    buf[..from] + Zeros(to - from) + buf[to..]
  }

  function DirectionIndex(d: Direction): nat {
    if d == ClientToServer then 0 else 1
  }

  /** Client-to-server takes the front half, server-to-client the back half. */
  function HalfOf(flat: Bundle, d: Direction): Half {
    if d == ClientToServer then flat[..PAD_HALF] else flat[PAD_HALF..]
  }

  function FreshStream(bundleId: nat, baseSegment: nat, flat: Bundle, d: Direction): Stream {
    Stream(bundleId, baseSegment + 64 * DirectionIndex(d), HalfOf(flat, d), 0)
  }

  /** Burning commutes: taking the key, then the pad, then moving on is one record spent. */
  lemma BurnInTwo(s: Stream, l: nat)
    requires s.Valid() && s.Fits(l)
    ensures Burned(s.KeyTaken().buf, s.cursor + MAC_KEY_LEN, s.cursor + MAC_KEY_LEN + l) == s.Spent(l).buf
    ensures s.KeyTaken().PadBytes(l) == s.PadBytes(l)
  {
  }

  class PadStream {
    var bundleId: nat
    var baseSegment: nat
    const buf: array<byte>
    var cursor: nat

    ghost predicate Valid()
      reads this, buf
    {
      buf.Length == PAD_HALF && cursor <= PAD_HALF && bundleId <= U64_MAX && baseSegment <= U64_MAX
    }

    ghost function Value(): Stream
      requires Valid()
      reads this, buf
    {
      Stream(bundleId, baseSegment, buf[..], cursor)
    }

    constructor FromHalf(bundleId: nat, baseSegment: nat, half: Half)
      requires bundleId <= U64_MAX && baseSegment <= U64_MAX
      ensures Valid() && fresh(buf) && Value() == Stream(bundleId, baseSegment, half, 0)
    {
      this.bundleId, this.baseSegment, this.cursor := bundleId, baseSegment, 0;
      this.buf := new byte[PAD_HALF](i requires 0 <= i < PAD_HALF => half[i]);
      new;
      assert buf[..] == half;
    }

    method Fits(l: nat) returns (fits: bool)
      requires Valid()
      ensures fits == Value().Fits(l)
    {
      fits := PAD_HALF - cursor >= MAC_KEY_LEN + l;
    }

    /** Cuts the one-time key out and zeroes it; the cursor stays. */
    method TakeMacKey() returns (key: Bytes32)
      requires Valid() && Value().Fits(0)
      modifies buf
      ensures Valid() && key == old(Value().MacKey()) && Value() == old(Value().KeyTaken())
    {
      key := buf[cursor..cursor + MAC_KEY_LEN];
      ghost var full := buf[..];
      forall i | cursor <= i < cursor + MAC_KEY_LEN {
        buf[i] := 0;
      }
      assert buf[..] == Burned(full, cursor, cursor + MAC_KEY_LEN);
    }

    /** Mixes the pad that follows the key into `dst`, zeroing each pad byte as it is used. */
    method XorBurnPad(dst: array<byte>)
      requires Valid() && Value().Fits(dst.Length) && dst != buf
      modifies buf, dst
      ensures Valid()
      ensures dst[..] == old(XorSeq(dst[..], Value().PadBytes(dst.Length)))
      ensures Mixed(old(dst[..]), old(buf[cursor + 32..cursor + 32 + dst.Length]), dst[..])
      ensures Value() == old(Value()).(buf := Burned(old(buf[..]), cursor + MAC_KEY_LEN,
                                                     cursor + MAC_KEY_LEN + dst.Length))
    {
      hide Xor, Mixed;
      var start := cursor + MAC_KEY_LEN;
      ghost var was, full := dst[..], buf[..];
      ghost var pad := Value().PadBytes(dst.Length);
      assert pad == full[start..start + dst.Length];
      for i := 0 to dst.Length
        invariant Valid()
        invariant forall k | 0 <= k < dst.Length :: dst[k] == if k < i then Xor(was[k], pad[k]) else was[k]
        invariant forall k | 0 <= k < PAD_HALF :: buf[k] == if start <= k < start + i then 0 else full[k]
      {
        assert pad[i] == full[start + i];
        dst[i] := Xor(dst[i], buf[start + i]);
        buf[start + i] := 0;
      }
      assert buf[..] == Burned(full, start, start + dst.Length);
      assert dst[..] == XorSeq(was, pad);
      XorSeqMixes(was, pad);
    }

    method Advance(l: nat)
      requires Valid() && Value().Fits(l)
      modifies this`cursor
      ensures Valid() && Value() == old(Value()).(cursor := old(cursor) + MAC_KEY_LEN + l)
    {
      cursor := cursor + MAC_KEY_LEN + l;
    }

    /** The whole stream is given up: zeroed, and the cursor at its end. */
    method Waste()
      requires Valid()
      modifies this`cursor, buf
      ensures Valid() && Value() == old(Value().Wasted())
    {
      forall i | 0 <= i < buf.Length {
        buf[i] := 0;
      }
      cursor := PAD_HALF;
      assert buf[..] == Zeros(PAD_HALF);
    }

    /** Moves the next stream into this place; the old bytes are zeroed first. */
    method RetireInto(next: Stream) returns (oldConsumed: nat)
      requires Valid() && next.Valid()
      modifies this, buf
      ensures Valid() && Value() == next && oldConsumed == old(cursor)
    {
      oldConsumed := cursor;
      Waste();
      bundleId, baseSegment, cursor := next.bundleId, next.baseSegment, next.cursor;
      forall i | 0 <= i < buf.Length {
        buf[i] := next.buf[i];
      }
      assert buf[..] == next.buf;
    }
  }
}
