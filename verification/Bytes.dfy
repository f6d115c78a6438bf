/** Bytes, fixed-width big-endian integers and byte-wise exclusive-or, shared by every wire format. */
module Bytes {

  type byte = x: int | 0 <= x < 256
  type u16 = x: int | 0 <= x < 0x1_0000
  type u32 = x: int | 0 <= x < 0x1_0000_0000
  type u64 = x: int | 0 <= x < 0x1_0000_0000_0000_0000

  const U64_MAX: u64 := 0xFFFF_FFFF_FFFF_FFFF

  function Zeros(n: nat): (s: seq<byte>)
    ensures |s| == n
  {
    seq(n, _ => 0)
  }

  type Bytes14 = s: seq<byte> | |s| == 14 witness Zeros(14)
  type Bytes16 = s: seq<byte> | |s| == 16 witness Zeros(16)
  type Bytes32 = s: seq<byte> | |s| == 32 witness Zeros(32)
  type Bytes64 = s: seq<byte> | |s| == 64 witness Zeros(64)

  function Pow256(n: nat): (p: nat)
    ensures p > 0
  {
    if n == 0 then 1 else 256 * Pow256(n - 1)
  }

  /** The low `width` bytes of `v`, most significant first. */
  function BE(width: nat, v: nat): (s: seq<byte>)
    ensures |s| == width
  {
    if width == 0 then [] else BE(width - 1, v / 256) + [v % 256]
  }

  function FromBE(s: seq<byte>): nat {
    if |s| == 0 then 0 else 256 * FromBE(s[..|s| - 1]) + s[|s| - 1]
  }

  lemma Pow256Values()
    ensures Pow256(1) == 0x100
    ensures Pow256(2) == 0x1_0000
    ensures Pow256(4) == 0x1_0000_0000
    ensures Pow256(8) == 0x1_0000_0000_0000_0000
  {
    assert Pow256(3) == 256 * Pow256(2);
    assert Pow256(5) == 256 * Pow256(4);
    assert Pow256(6) == 256 * Pow256(5);
    assert Pow256(7) == 256 * Pow256(6);
  }

  lemma {:induction false} FromBEOfBE(width: nat, v: nat)
    requires v < Pow256(width)
    ensures FromBE(BE(width, v)) == v
  {
    if width > 0 {
      var s := BE(width, v);
      assert s[..|s| - 1] == BE(width - 1, v / 256);
      FromBEOfBE(width - 1, v / 256);
    }
  }

  lemma {:induction false} BEOfFromBE(s: seq<byte>)
    ensures FromBE(s) < Pow256(|s|)
    ensures BE(|s|, FromBE(s)) == s
  {
    if |s| > 0 {
      BEOfFromBE(s[..|s| - 1]);
      assert FromBE(s) / 256 == FromBE(s[..|s| - 1]);
      assert s == s[..|s| - 1] + [s[|s| - 1]];
    }
  }

  function Low64(s: seq<byte>): (v: u64)
    requires |s| == 8
  {
    BEOfFromBE(s);
    Pow256Values();
    FromBE(s)
  }

  function Low32(s: seq<byte>): (v: u32)
    requires |s| == 4
  {
    BEOfFromBE(s);
    Pow256Values();
    FromBE(s)
  }

  function Low16(s: seq<byte>): (v: u16)
    requires |s| == 2
  {
    BEOfFromBE(s);
    Pow256Values();
    FromBE(s)
  }

  /** Reading back a written integer, and writing back a read one, for the widths the formats use. */
  lemma IntegersRoundTrip()
    ensures forall v: u64 {:trigger BE(8, v)} :: Low64(BE(8, v)) == v
    ensures forall v: u32 {:trigger BE(4, v)} :: Low32(BE(4, v)) == v
    ensures forall v: u16 {:trigger BE(2, v)} :: Low16(BE(2, v)) == v
    ensures forall s: seq<byte> {:trigger Low64(s)} | |s| == 8 :: BE(8, Low64(s)) == s
    ensures forall s: seq<byte> {:trigger Low32(s)} | |s| == 4 :: BE(4, Low32(s)) == s
    ensures forall s: seq<byte> {:trigger Low16(s)} | |s| == 2 :: BE(2, Low16(s)) == s
  {
    Pow256Values();
    forall v: u64 ensures Low64(BE(8, v)) == v { FromBEOfBE(8, v); }
    forall v: u32 ensures Low32(BE(4, v)) == v { FromBEOfBE(4, v); }
    forall v: u16 ensures Low16(BE(2, v)) == v { FromBEOfBE(2, v); }
    forall s: seq<byte> | |s| == 8 ensures BE(8, Low64(s)) == s { BEOfFromBE(s); }
    forall s: seq<byte> | |s| == 4 ensures BE(4, Low32(s)) == s { BEOfFromBE(s); }
    forall s: seq<byte> | |s| == 2 ensures BE(2, Low16(s)) == s { BEOfFromBE(s); }
  }

  function Min(a: nat, b: nat): nat {
    if a < b then a else b
  }

  /** A prefix extended by the slice that follows it. */
  lemma Join<T>(s: seq<T>, i: nat, j: nat)
    requires i <= j <= |s|
    ensures s[..i] + s[i..j] == s[..j]
  {
  }

  /** Exclusive-or of the low `bits` bits. */
  function XorBits(bits: nat, x: nat, y: nat): nat {
    if bits == 0 then 0 else 2 * XorBits(bits - 1, x / 2, y / 2) + (x + y) % 2
  }

  function Pow2(n: nat): (p: nat)
    ensures p > 0
  {
    if n == 0 then 1 else 2 * Pow2(n - 1)
  }

  lemma {:induction false} XorBitsBound(bits: nat, x: nat, y: nat)
    ensures XorBits(bits, x, y) < Pow2(bits)
  {
    if bits > 0 {
      XorBitsBound(bits - 1, x / 2, y / 2);
    }
  }

  lemma LastBit(high: nat, low: nat, x: nat, y: nat)
    requires low == (x + y) % 2
    ensures (2 * high + low) / 2 == high
    ensures (2 * high + low + y) % 2 == x % 2
  {
  }

  lemma {:induction false} XorBitsUndo(bits: nat, x: nat, y: nat)
    requires x < Pow2(bits)
    ensures XorBits(bits, XorBits(bits, x, y), y) == x
  {
    if bits > 0 {
      XorBitsUndo(bits - 1, x / 2, y / 2);
      var high := XorBits(bits - 1, x / 2, y / 2);
      var low := (x + y) % 2;
      LastBit(high, low, x, y);
      assert XorBits(bits, 2 * high + low, y) == 2 * XorBits(bits - 1, high, y / 2) + x % 2;
    }
  }

  /** Bit `i` of a number, the least significant one first. */
  predicate Bit(x: nat, i: nat) {
    if i == 0 then x % 2 == 1 else Bit(x / 2, i - 1)
  }

  function Xor(x: byte, y: byte): byte {
    XorBitsBound(8, x, y);
    Pow2Of8();
    XorBits(8, x, y)
  }

  lemma Pow2Of8()
    ensures Pow2(8) == 256
  {
    assert Pow2(4) == 16;
    assert Pow2(6) == 64;
  }

  lemma HalfAndLow(high: nat, low: nat)
    requires low < 2
    ensures (2 * high + low) / 2 == high && (2 * high + low) % 2 == low
  {
  }

  lemma SumIsOdd(x: nat, y: nat)
    ensures (x + y) % 2 == 1 <==> (x % 2 == 1) != (y % 2 == 1)
  {
  }

  lemma {:induction false} BitOfXorBits(bits: nat, x: nat, y: nat, i: nat)
    requires i < bits
    ensures Bit(XorBits(bits, x, y), i) <==> Bit(x, i) != Bit(y, i)
    decreases i
  {
    HalfAndLow(XorBits(bits - 1, x / 2, y / 2), (x + y) % 2);
    if i == 0 {
      SumIsOdd(x, y);
    } else {
      BitOfXorBits(bits - 1, x / 2, y / 2, i - 1);
    }
  }

  /** Every bit of `x` is flipped exactly where `y` has a one. */
  lemma BitOfXor(x: byte, y: byte, i: nat)
    requires i < 8
    ensures Bit(Xor(x, y), i) <==> Bit(x, i) != Bit(y, i)
  {
    BitOfXorBits(8, x, y, i);
  }

  lemma {:induction false} SameBitsSameNumber(bits: nat, x: nat, y: nat)
    requires x < Pow2(bits) && y < Pow2(bits)
    requires forall i :: 0 <= i < bits ==> (Bit(x, i) <==> Bit(y, i))
    ensures x == y
  {
    if bits > 0 {
      assert Bit(x, 0) <==> Bit(y, 0);
      forall i | 0 <= i < bits - 1
        ensures Bit(x / 2, i) <==> Bit(y / 2, i)
      {
        assert Bit(x, i + 1) <==> Bit(y, i + 1);
      }
      SameBitsSameNumber(bits - 1, x / 2, y / 2);
    }
  }

  /** Exactly one byte `k` turns `p` into `c`: the one whose bits are where the two differ. */
  lemma OneKeyByte(p: byte, k: byte, c: byte)
    ensures Xor(p, k) == c <==> k == Xor(p, c)
  {
    hide Xor, Bit;
    Pow2Of8();
    forall i | 0 <= i < 8
      ensures (Bit(Xor(p, k), i) <==> Bit(p, i) != Bit(k, i)) && (Bit(Xor(p, c), i) <==> Bit(p, i) != Bit(c, i))
    {
      BitOfXor(p, k, i);
      BitOfXor(p, c, i);
    }
    if Xor(p, k) == c {
      SameBitsSameNumber(8, k, Xor(p, c));
    }
    if k == Xor(p, c) {
      SameBitsSameNumber(8, Xor(p, k), c);
    }
  }

  lemma XorUndo(x: byte, y: byte)
    ensures Xor(Xor(x, y), y) == x
  {
    Pow2Of8();
    XorBitsUndo(8, x, y);
  }

  /** `data` exclusive-or the pad of the same length. */
  function XorSeq(data: seq<byte>, pad: seq<byte>): (r: seq<byte>)
    requires |data| == |pad|
    ensures |r| == |data|
  {
    seq(|data|, i requires 0 <= i < |data| => Xor(data[i], pad[i]))
  }

  /** `out` is `data` with exactly the bits flipped at which `pad` has a one. */
  predicate Mixed(data: seq<byte>, pad: seq<byte>, out: seq<byte>) {
    && |out| == |data| == |pad|
    && forall k, i :: 0 <= k < |data| && 0 <= i < 8 ==> (Bit(out[k], i) <==> Bit(data[k], i) != Bit(pad[k], i))
  }

  lemma XorSeqMixes(data: seq<byte>, pad: seq<byte>)
    requires |data| == |pad|
    ensures Mixed(data, pad, XorSeq(data, pad))
  {
    forall k, i | 0 <= k < |data| && 0 <= i < 8
      ensures Bit(XorSeq(data, pad)[k], i) <==> Bit(data[k], i) != Bit(pad[k], i)
    {
      BitOfXor(data[k], pad[k], i);
    }
  }

  /** For any two texts of one length exactly one pad turns the first into the second. */
  lemma OnePad(p: seq<byte>, pad: seq<byte>, c: seq<byte>)
    requires |p| == |pad| == |c|
    ensures XorSeq(p, pad) == c <==> pad == XorSeq(p, c)
  {
    hide Xor;
    forall k | 0 <= k < |p|
      ensures Xor(p[k], pad[k]) == c[k] <==> pad[k] == Xor(p[k], c[k])
    {
      OneKeyByte(p[k], pad[k], c[k]);
    }
    if XorSeq(p, pad) == c {
      assert forall k :: 0 <= k < |p| ==> XorSeq(p, pad)[k] == Xor(p[k], pad[k]);
    }
    if pad == XorSeq(p, c) {
      assert forall k :: 0 <= k < |p| ==> XorSeq(p, c)[k] == Xor(p[k], c[k]);
    }
  }

  /** Digit `i` of a written integer, counted from the front, is worth 256 to the number of digits behind it. */
  lemma {:induction false} DigitOfBE(width: nat, v: nat, i: nat)
    requires i < width
    ensures BE(width, v)[i] == (v / Pow256(width - 1 - i)) % 256
  {
    if i < width - 1 {
      DigitOfBE(width - 1, v / 256, i);
      DivideTwice(v, 256, Pow256(width - 2 - i));
    }
  }

  lemma DivideTwice(v: nat, a: nat, b: nat)
    requires a > 0 && b > 0
    ensures a * b > 0 && v / a / b == v / (a * b)
  {
    var q := v / a / b;
    var r := v - a * b * q;
    assert v / a == b * q + v / a % b;
    assert v == a * (v / a) + v % a;
    assert r == a * (v / a % b) + v % a;
    Bounded(a, b, v / a % b, v % a);
    FloorIs(v, a * b, q);
  }

  lemma Bounded(a: nat, b: nat, x: nat, y: nat)
    requires x < b && y < a
    ensures 0 <= a * x + y < a * b
  {
    assert a * x + a == a * (x + 1) <= a * b;
  }

  lemma Scale(k: nat, a: int, b: int)
    requires a <= b
    ensures k * a <= k * b
  {
  }

  /** The quotient and remainder are the only ones that fit. */
  lemma FloorIs(x: int, k: int, q: int)
    requires k > 0 && k * q <= x < k * q + k
    ensures x / k == q && x % k == x - k * q
  {
    var p := x / k;
    assert x == k * p + x % k;
    if p < q {
      Scale(k, p + 1, q);
    } else if p > q {
      Scale(k, q + 1, p);
    }
  }

  lemma XorSeqUndo(data: seq<byte>, pad: seq<byte>)
    requires |data| == |pad|
    ensures XorSeq(XorSeq(data, pad), pad) == data
  {
    forall i | 0 <= i < |data|
      ensures XorSeq(XorSeq(data, pad), pad)[i] == data[i]
    {
      XorUndo(data[i], pad[i]);
    }
  }

  datatype Option<+T> = None | Some(value: T)

  datatype Result<+T, +E> = Ok(value: T) | Err(error: E)
}
