/**
 * The wire formats byte by byte, with the numbers of the specification rather than the names of the encoders, and what
 * each decoder refuses, in the order in which it looks.
 */
module Layouts {
  import opened Bytes
  import opened Types
  import Wire
  import Record
  import Message
  import Codec
  import Framing
  import AnchorSpec
  import SessionSpec
  import HandshakeSpec

  /** The byte of an ASCII character; a question mark for any other. */
  function Code(c: char): byte {
    if c as int < 128 then c as int else 63
  }

  function Ascii(text: string): (s: seq<byte>)
    ensures |s| == |text|
  {
    seq(|text|, i requires 0 <= i < |text| => Code(text[i]))
  }

  /** The number written in `s`, digit by digit. */
  function Number(s: seq<byte>): nat {
    if s == [] then 0 else s[0] * Pow256(|s| - 1) + Number(s[1..])
  }

  lemma {:induction false} NumberIsFromBE(s: seq<byte>)
    ensures Number(s) == FromBE(s)
    decreases |s|
  {
    if |s| > 0 {
      NumberIsFromBE(s[1..]);
      FromBEFront(s);
    }
  }

  lemma {:induction false} FromBEFront(s: seq<byte>)
    requires |s| > 0
    ensures FromBE(s) == s[0] * Pow256(|s| - 1) + FromBE(s[1..])
    decreases |s|
  {
    if |s| > 1 {
      var front := s[..|s| - 1];
      FromBEFront(front);
      assert front[1..] == s[1..][..|s| - 2] && s[1..][|s| - 2] == s[|s| - 1];
      Regroup(s[0], Pow256(|s| - 2), FromBE(front[1..]), s[|s| - 1]);
    } else {
      assert s[1..] == [];
    }
  }

  lemma Regroup(d: nat, p: nat, rest: nat, last: nat)
    ensures 256 * (d * p + rest) + last == d * (256 * p) + (256 * rest + last)
  {
  }

  /** An integer goes out most significant byte first: the digits written are the number. */
  lemma WrittenIsNumber(width: nat, v: nat)
    requires v < Pow256(width)
    ensures Number(BE(width, v)) == v
  {
    FromBEOfBE(width, v);
    NumberIsFromBE(BE(width, v));
  }

  // ---- the authenticated bytes of a data record ----

  lemma MacInputLayout(h: seq<byte>, c: seq<byte>)
    ensures Record.MacInput(h, c) == Ascii("otp-term/full-otp/data/v1") + [0, 25] + h + c
  {
    assert Record.DOMAIN_SEPARATOR == Ascii("otp-term/full-otp/data/v1");
    assert BE(2, 25) == [0, 25];
  }

  /** The 34 bytes before the ciphertext of a frame, and the 16 after it. */
  lemma DataFrameLayout(r: Wire.OtpDataRecord)
    ensures var f := Wire.Encode(r);
            && |f| == 50 + |r.ciphertext| && f[0..5] == [0x00, 0x03, 0x00, 0x10, 0x01]
            && f[5] == (if r.direction == ClientToServer then 1 else 2)
            && Number(f[6..14]) == r.bundleId && Number(f[14..22]) == r.baseSegment && Number(f[22..30]) == r.recordSeq
            && Number(f[30..32]) == r.padOffset && (|r.ciphertext| < 0x1_0000 ==> Number(f[32..34]) == |r.ciphertext|)
            && f[34..34 + |r.ciphertext|] == r.ciphertext && f[34 + |r.ciphertext|..] == r.tag
  {
    hide Number;
    var f := Wire.Encode(r);
    var h := Wire.Header(r);
    assert f == h + (r.ciphertext + r.tag);
    Wire.HeaderFields(r);
    assert BE(2, 3) == [0, 3] && BE(2, 0x10) == [0, 0x10];
    assert h[0..5] == h[0..2] + h[2..4] + [h[4]];
    assert f[0..5] == h[0..5] && f[6..14] == h[6..14] && f[14..22] == h[14..22] && f[22..30] == h[22..30];
    assert f[30..32] == h[30..32] && f[32..34] == h[32..34];
    Pow256Values();
    WrittenIsNumber(8, r.bundleId);
    WrittenIsNumber(8, r.baseSegment);
    WrittenIsNumber(8, r.recordSeq);
    WrittenIsNumber(2, r.padOffset);
    if |r.ciphertext| < 0x1_0000 {
      WrittenIsNumber(2, |r.ciphertext|);
    }
  }

  /** What the decoder of data frames refuses, and as what; everything else it accepts. */
  lemma DataFrameRefusals(f: seq<byte>)
    ensures var o := Wire.Decode(f);
            var n := |f|;
            && (o == Err(Wire.TooShort) <==> n < 51) && (o == Err(Wire.TooLong) <==> n > 4114)
            && (51 <= n <= 4114 ==>
                  var length, offset := Number(f[32..34]), Number(f[30..32]);
                  && (o == Err(Wire.Version) <==> f[0..2] != [0, 3])
                  && (o == Err(Wire.MsgType) <==> f[0..2] == [0, 3] && f[2..4] != [0, 0x10])
                  && (o == Err(Wire.Mode) <==> f[0..4] == [0, 3, 0, 0x10] && f[4] != 1)
                  && (o == Err(Wire.DirectionCode) <==> f[0..5] == [0, 3, 0, 0x10, 1] && f[5] !in {1, 2})
                  && var known := f[0..5] == [0, 3, 0, 0x10, 1] && f[5] in {1, 2};
                  && (o == Err(Wire.CiphertextLen) <==> known && !(1 <= length <= 4064))
                  && (o == Err(Wire.LengthMismatch) <==> known && 1 <= length <= 4064 && n != 50 + length)
                  && (o == Err(Wire.OffsetBounds) <==> known && 1 <= length <= 4064 && n == 50 + length && offset + 32 + length > 4096)
                  && (o.Ok? <==> known && 1 <= length <= 4064 && n == 50 + length && offset + 32 + length <= 4096))
  {
    if 51 <= |f| <= 4114 {
      NumberIsFromBE(f[0..2]);
      NumberIsFromBE(f[2..4]);
      NumberIsFromBE(f[30..32]);
      NumberIsFromBE(f[32..34]);
      assert f[0..2] == [f[0], f[1]] && f[2..4] == [f[2], f[3]];
      assert f[0..4] == [f[0], f[1], f[2], f[3]] && f[0..5] == [f[0], f[1], f[2], f[3], f[4]];
    }
  }

  // ---- protocol frames ----

  function TypeCode(m: Message.Message): byte {
    match m
    case Hello(_, _, _, _) => 1
    case Arbitrate(_, _, _) => 2
    case IssueRequest(_, _, _) => 3
    case ConfirmC2s(_, _, _, _, _) => 4
    case ConfirmS2c(_, _, _, _, _) => 5
    case Data(_, _, _) => 6
  }

  /** The fields of a payload, at their offsets. */
  predicate Carries(p: seq<byte>, m: Message.Message) {
    match m
    case Hello(bookId, nonce, pointer, features) =>
      && |p| == 44 && p[0..16] == bookId && p[16..32] == nonce && Number(p[32..40]) == pointer && Number(p[40..44]) == features
    case Arbitrate(nonce, pointer, result) =>
      && |p| == 25 && p[0..16] == nonce && Number(p[16..24]) == pointer
      && p[24] == (match result
                   case ResultOk => 0
                   case ServerAhead => 1
                   case Exhausted => 2
                   case BookMismatch => 3
                   case ClientAhead => 4)
    case IssueRequest(pointer, clientNonce, serverNonce) =>
      |p| == 40 && Number(p[0..8]) == pointer && p[8..24] == clientNonce && p[24..40] == serverNonce
    case ConfirmC2s(segment, nonce, epoch, n, sealed) =>
      && |p| == 139 && Number(p[0..8]) == segment && p[8..24] == nonce && Number(p[24..28]) == epoch
      && Number(p[28..36]) == n && p[36..139] == sealed
    case ConfirmS2c(segment, nonce, epoch, n, sealed) =>
      && |p| == 139 && Number(p[0..8]) == segment && p[8..24] == nonce && Number(p[24..28]) == epoch
      && Number(p[28..36]) == n && p[36..139] == sealed
    case Data(epoch, n, data) =>
      && |p| == 16 + |data| && Number(p[0..4]) == epoch && Number(p[4..12]) == n && Number(p[12..16]) == |data|
      && p[16..] == data
  }

  /** Exactly these messages have an encoding. */
  lemma EncodableIff(m: Message.Message)
    ensures Codec.Unencodable(m) == Some(Message.BadEnum) <==>
            m.Arbitrate? && m.result == Message.BookMismatch && m.serverPointer > 0
    ensures Codec.Unencodable(m) == Some(Message.BadLength) <==> m.Data? && !(16 <= |m.data| <= 65552)
    ensures Codec.Unencodable(m) in {None, Some(Message.BadEnum), Some(Message.BadLength)}
  {
  }

  lemma PayloadCarries(m: Message.Message)
    requires Codec.Unencodable(m) == None
    ensures Carries(Codec.Payload(m), m)
  {
    hide Number;
    var p := Codec.Payload(m);
    Pow256Values();
    match m {
      case Hello(bookId, nonce, pointer, features) =>
        assert p[0..16] == bookId && p[16..32] == nonce && p[32..40] == BE(8, pointer) && p[40..44] == BE(4, features);
        WrittenIsNumber(8, pointer);
        WrittenIsNumber(4, features);
      case Arbitrate(nonce, pointer, result) =>
        assert p[0..16] == nonce && p[16..24] == BE(8, pointer);
        WrittenIsNumber(8, pointer);
      case IssueRequest(pointer, clientNonce, serverNonce) =>
        assert p[0..8] == BE(8, pointer) && p[8..24] == clientNonce && p[24..40] == serverNonce;
        WrittenIsNumber(8, pointer);
      case ConfirmC2s(segment, nonce, epoch, n, sealed) =>
        ConfirmCarries(segment, nonce, epoch, n, sealed);
      case ConfirmS2c(segment, nonce, epoch, n, sealed) =>
        ConfirmCarries(segment, nonce, epoch, n, sealed);
      case Data(epoch, n, data) =>
        assert p[0..4] == BE(4, epoch) && p[4..12] == BE(8, n) && p[12..16] == BE(4, |data|) && p[16..] == data;
        WrittenIsNumber(4, epoch);
        WrittenIsNumber(8, n);
        WrittenIsNumber(4, |data|);
    }
  }

  lemma ConfirmCarries(segment: u64, nonce: Bytes16, epoch: u32, n: u64, sealed: Message.Sealed)
    ensures var p := BE(8, segment) + nonce + BE(4, epoch) + BE(8, n) + sealed;
            && |p| == 139 && Number(p[0..8]) == segment && p[8..24] == nonce && Number(p[24..28]) == epoch
            && Number(p[28..36]) == n && p[36..139] == sealed
  {
    hide Number;
    var p := BE(8, segment) + nonce + BE(4, epoch) + BE(8, n) + sealed;
    assert p[0..8] == BE(8, segment) && p[8..24] == nonce && p[24..28] == BE(4, epoch) && p[28..36] == BE(8, n);
    assert p[36..139] == sealed;
    Pow256Values();
    WrittenIsNumber(8, segment);
    WrittenIsNumber(4, epoch);
    WrittenIsNumber(8, n);
  }

  /** A frame: version 2, the type, the payload's length, the payload; and it is one the framing layer lets through. */
  lemma FrameLayout(m: Message.Message)
    requires Codec.Unencodable(m) == None
    ensures var f := Codec.Frame(m);
            && |f| >= 8 && f[0..4] == [0, 2, 0, TypeCode(m)] && Number(f[4..8]) == |f| - 8
            && Carries(f[8..], m) && Framing.WellFormed(f) && |f| > 8
  {
    hide Number, Carries, Codec.Payload;
    var f := Codec.Frame(m);
    Codec.PayloadLength(m);
    PayloadCarries(m);
    var h := Codec.Head(m.Type(), |Codec.Payload(m)|);
    assert f == h + Codec.Payload(m) && f[8..] == Codec.Payload(m);
    assert BE(2, 2) == [0, 2] && BE(2, TypeCode(m)) == [0, TypeCode(m)];
    assert f[0..4] == h[0..2] + h[2..4] && f[4..8] == h[4..8];
    Pow256Values();
    WrittenIsNumber(4, |Codec.Payload(m)|);
    FromBEOfBE(4, |Codec.Payload(m)|);
  }

  /** What the framing layer lets through: 8 bytes of header whose last four give the length of the rest. */
  lemma WellFormedMeans(f: seq<byte>)
    ensures Framing.WellFormed(f) <==>
            |f| >= 8 && |f| - 8 == Number(f[4..8]) <= 65568
  {
    if |f| >= 8 {
      NumberIsFromBE(f[4..8]);
    }
  }

  /** The lengths a type's payload may have. */
  predicate LengthFits(code: nat, length: nat) {
    if code == 1 then length == 44
    else if code == 2 then length == 25
    else if code == 3 then length == 40
    else if code == 4 || code == 5 then length == 139
    else code == 6 && 32 <= length <= 65568
  }

  /** A frame whose header is in order and which has just the length it declares. */
  predicate Whole(f: seq<byte>) {
    && |f| >= 8 && f[0..3] == [0, 2, 0] && 1 <= f[3] <= 6
    && var length := Number(f[4..8]);
    && LengthFits(f[3], length) && |f| == 8 + length
  }

  /** Hello, request and confirm of the client go to the server, arbitration and confirm of the server to the client. */
  predicate MayReceive(role: Role, code: nat) {
    code == 6 || (if role == Server then code in {1, 3, 4} else code in {2, 5})
  }

  lemma HeaderRead(f: seq<byte>)
    requires |f| >= 8
    ensures Low16(f[0..2]) == Number(f[0..2]) && Low16(f[2..4]) == Number(f[2..4])
    ensures Low32(f[4..8]) == Number(f[4..8])
    ensures Number(f[0..2]) == 2 <==> f[0..2] == [0, 2]
    ensures f[2] == 0 ==> Number(f[2..4]) == f[3]
    ensures f[2] != 0 ==> Number(f[2..4]) > 255
    ensures f[0..3] == [0, 2, 0] <==> f[0..2] == [0, 2] && f[2] == 0
  {
    NumberIsFromBE(f[0..2]);
    NumberIsFromBE(f[2..4]);
    NumberIsFromBE(f[4..8]);
  }

  /** The header checks, in their order. */
  lemma FrameRefusals(role: Role, f: seq<byte>)
    requires !Whole(f) || !MayReceive(role, f[3])
    ensures Codec.Decode(role, f) ==
            if |f| < 8 then Err(Message.FrameTruncated)
            else
              var length := Number(f[4..8]);
              if f[0..2] != [0, 2] then Err(Message.BadVersion)
              else if !(f[2] == 0 && 1 <= f[3] <= 6) then Err(Message.UnknownMsgType)
              else if !LengthFits(f[3], length) then Err(Message.BadLength)
              else if |f| < 8 + length then Err(Message.FrameTruncated)
              else if |f| > 8 + length then Err(Message.TrailingBytes)
              else Err(Message.WrongDirectionCode)
  {
    hide Codec.ParsePayload;
    if |f| >= 8 {
      HeaderRead(f);
    }
  }

  /** The payload checks: an unknown verdict, a mismatch that names a pointer, a data length that is not the payload's. */
  lemma PayloadRefusals(role: Role, f: seq<byte>)
    requires Whole(f) && MayReceive(role, f[3])
    ensures var o := Codec.Decode(role, f);
            && (o == Err(Message.BadEnum) <==> f[3] == 2 && (f[32] > 4 || (f[32] == 3 && Number(f[24..32]) != 0)))
            && (f[3] == 6 ==>
                  var n := Number(f[20..24]);
                  && (o == Err(Message.BadLength) <==> !(16 <= n <= 65552) || 24 + n > |f|)
                  && (o == Err(Message.TrailingBytes) <==> 16 <= n <= 65552 && 24 + n < |f|)
                  && (o.Ok? <==> 16 <= n <= 65552 && 24 + n == |f|))
            && (f[3] in {1, 3, 4, 5} ==> o.Ok?) && (f[3] == 2 && o.Err? ==> o.error == Message.BadEnum)
  {
    hide Number;
    HeaderRead(f);
    var p := f[8..];
    if f[3] == 2 {
      assert p[24] == f[32] && p[16..24] == f[24..32];
      NumberIsFromBE(f[24..32]);
    } else if f[3] == 6 {
      assert p[12..16] == f[20..24];
      NumberIsFromBE(f[20..24]);
    }
  }

  // ---- the confirm body, the associated data and the nonce ----

  lemma ConfirmBodyLayout(b: Message.ConfirmBody)
    ensures var s := Codec.EncodeConfirmBody(b);
            && |s| == 87 && s[0..2] == [0, 2] && s[2..18] == b.bookId && Number(s[18..26]) == b.segmentIndex
            && s[26..42] == b.clientNonce && s[42..58] == b.serverNonce
            && s[58] == (if b.direction == ClientToServer then 1 else 2)
            && Number(s[59..63]) == b.epoch && Number(s[63..71]) == b.seqNo && Number(s[71..73]) == b.msgType
            && s[73..87] == b.purpose
  {
    hide Number;
    var s := Codec.EncodeConfirmBody(b);
    assert s[0..2] == BE(2, 2) && s[2..18] == b.bookId && s[18..26] == BE(8, b.segmentIndex);
    assert s[26..42] == b.clientNonce && s[42..58] == b.serverNonce && s[58] == DirectionWire(b.direction);
    assert s[59..63] == BE(4, b.epoch) && s[63..71] == BE(8, b.seqNo) && s[71..73] == BE(2, b.msgType);
    assert s[73..87] == b.purpose && BE(2, 2) == [0, 2];
    Pow256Values();
    WrittenIsNumber(8, b.segmentIndex);
    WrittenIsNumber(4, b.epoch);
    WrittenIsNumber(8, b.seqNo);
    WrittenIsNumber(2, b.msgType);
  }

  /** What a confirm vouches for: the party's own context, its direction, number 0 of epoch 0, its type and purpose. */
  lemma ConfirmContents(ctx: SessionSpec.SessionContext, d: Direction)
    ensures HandshakeSpec.ConfirmFor(ctx, d) ==
            Message.ConfirmBody(ctx.bookId, ctx.segment, ctx.clientNonce, ctx.serverNonce, d, 0, 0,
                                if d == ClientToServer then 4 else 5,
                                if d == ClientToServer then Ascii("client-confirm") else Ascii("server-confirm"))
  {
    assert HandshakeSpec.LABEL_C2S == Ascii("client-confirm") && HandshakeSpec.LABEL_S2C == Ascii("server-confirm");
  }

  lemma AadLayout(ctx: SessionSpec.SessionContext, mt: SessionSpec.MessageType, d: Direction, epoch: u32, n: u64)
    ensures var aad := SessionSpec.BuildAad(ctx, mt, d, epoch, n);
            && |aad| == 73 && aad[0..3] == [0, 2, 0]
            && aad[3] == (match mt case ClientConfirm => 4 case ServerConfirm => 5 case Data => 6)
            && aad[4] == (if d == ClientToServer then 1 else 2) && aad[5..21] == ctx.bookId
            && Number(aad[21..29]) == ctx.segment && aad[29..45] == ctx.clientNonce && aad[45..61] == ctx.serverNonce
            && Number(aad[61..65]) == epoch && Number(aad[65..73]) == n
  {
    hide Number;
    var aad := SessionSpec.BuildAad(ctx, mt, d, epoch, n);
    SessionSpec.FieldsOf(BE(2, 2), BE(2, mt.WireCode()), DirectionWire(d), ctx.bookId, BE(8, ctx.segment),
      ctx.clientNonce, ctx.serverNonce, BE(4, epoch), BE(8, n));
    assert aad[0..2] == BE(2, 2) == [0, 2];
    assert aad[2..4] == BE(2, mt.WireCode()) == [0, mt.WireCode()];
    assert aad[0..3] == aad[0..2] + [aad[2..4][0]] && aad[3] == aad[2..4][1];
    Pow256Values();
    WrittenIsNumber(8, ctx.segment);
    WrittenIsNumber(4, epoch);
    WrittenIsNumber(8, n);
  }

  /** Twelve bytes: three of the two nonces mixed, the direction, the record's number. */
  lemma RecordNonceLayout(ctx: SessionSpec.SessionContext, d: Direction, n: u64)
    ensures var s := SessionSpec.RecordNonce(ctx, d, n);
            && |s| == 12 && Mixed(ctx.clientNonce[0..3], ctx.serverNonce[0..3], s[0..3])
            && s[3] == (if d == ClientToServer then 1 else 2) && Number(s[4..12]) == n
    ensures Mixed(ctx.clientNonce, ctx.serverNonce, ctx.SessionNonce())
  {
    hide Number, Bit, Xor;
    var s := SessionSpec.RecordNonce(ctx, d, n);
    XorSeqMixes(ctx.clientNonce, ctx.serverNonce);
    assert s[4..12] == BE(8, n);
    Pow256Values();
    WrittenIsNumber(8, n);
  }

  // ---- the anchor record ----

  lemma AnchorLayout(sha: AnchorSpec.Hash, r: AnchorSpec.AnchorRecord)
    ensures var s := AnchorSpec.Encoded(sha, r);
            && |s| == 104 && s[0..4] == Ascii("OTPA") && s[4..6] == [0, 2]
            && s[6] == (match r.payload case Init => 0 case Intent(_) => 1 case Commit(_) => 2) && s[7] == 0
            && s[8..24] == r.bookId && Number(s[24..32]) == r.generation && Number(s[32..40]) == r.next
            && (r.payload.Init? ==> s[40..72] == Zeros(32))
            && (r.payload.Intent? ==> Number(s[40..48]) == r.payload.reserved && s[48..72] == Zeros(24))
            && (r.payload.Commit? ==> s[40..72] == r.payload.previousSegmentHash)
            && s[72..104] == sha(s[0..72])
  {
    hide Number;
    var s := AnchorSpec.Encoded(sha, r);
    var p := AnchorSpec.Prefix(r);
    AnchorSpec.PrefixFields(r);
    assert s[0..72] == p && s[72..104] == sha(p) && AnchorSpec.MAGIC == Ascii("OTPA") && BE(2, 2) == [0, 2];
    assert s[0..4] == p[0..4] && s[4..6] == p[4..6] && s[8..24] == p[8..24];
    assert s[24..32] == p[24..32] && s[32..40] == p[32..40] && s[40..72] == p[40..72];
    Pow256Values();
    WrittenIsNumber(8, r.generation);
    WrittenIsNumber(8, r.next);
    if r.payload.Intent? {
      assert s[40..48] == p[40..72][..8] == BE(8, r.payload.reserved) && s[48..72] == p[40..72][8..];
      WrittenIsNumber(8, r.payload.reserved);
    }
  }

  /** What the reader of an anchor copy refuses, in the order in which it looks. */
  lemma AnchorRefusals(sha: AnchorSpec.Hash, s: seq<byte>)
    requires AnchorSpec.DecodeAndVerify(sha, s).Err?
    ensures AnchorSpec.DecodeAndVerify(sha, s).error ==
            if |s| != 104 then AnchorSpec.DecodeFailed(AnchorSpec.BadLength)
            else if s[0..4] != Ascii("OTPA") then AnchorSpec.DecodeFailed(AnchorSpec.BadMagic)
            else if Number(s[4..6]) != 2 then AnchorSpec.DecodeFailed(AnchorSpec.BadVersion)
            else if s[7] != 0 then AnchorSpec.DecodeFailed(AnchorSpec.BadFlags)
            else if sha(s[0..72]) != s[72..104] then AnchorSpec.IntegrityCheckFailed
            else if s[6] == 0 then AnchorSpec.DecodeFailed(AnchorSpec.NonCanonicalInit)
            else if s[6] == 2 then AnchorSpec.DecodeFailed(AnchorSpec.NonCanonicalCommit)
            else if s[6] != 1 then AnchorSpec.DecodeFailed(AnchorSpec.RecordType)
            else if Number(s[32..40]) == 0 || s[48..72] != Zeros(24) then AnchorSpec.DecodeFailed(AnchorSpec.NonCanonicalIntent)
            else AnchorSpec.DecodeFailed(AnchorSpec.IntentIndex)
  {
    hide Number;
    assert AnchorSpec.MAGIC == Ascii("OTPA");
    if |s| == 104 {
      NumberIsFromBE(s[4..6]);
      NumberIsFromBE(s[32..40]);
      assert s[..72] == s[0..72] && s[72..] == s[72..104];
      assert s[40..72][8..] == s[48..72];
    }
  }

  lemma ConfirmBodyRefusals(s: seq<byte>)
    ensures var o := Codec.DecodeConfirmBody(s);
            && (o == Err(Message.BadLength) <==> |s| != 87)
            && (|s| == 87 ==>
                  && (o == Err(Message.BadVersion) <==> Number(s[0..2]) != 2)
                  && (o == Err(Message.BadEnum) <==> Number(s[0..2]) == 2 && s[58] !in {1, 2})
                  && (o.Ok? <==> Number(s[0..2]) == 2 && s[58] in {1, 2}))
  {
    hide Number;
    if |s| == 87 {
      NumberIsFromBE(s[0..2]);
    }
  }
}
