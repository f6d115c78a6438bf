/** Canonical encoding and strict decoding of the protocol frames and of the inner confirm body. */
module Codec {
  import opened Bytes
  import opened Types
  import opened Message

  // ---- encoding ----

  /** Why a message has no canonical encoding, if it has none. */
  function Unencodable(m: Message): Option<ErrorCode> {
    match m
    case Arbitrate(_, pointer, result) =>
      if result == BookMismatch && pointer != 0 then Some(BadEnum) else None
    case Data(_, _, data) =>
      if MIN_DATA_FIELD <= |data| <= MAX_DATA_FIELD then None else Some(BadLength)
    case _ => None
  }

  function Payload(m: Message): seq<byte> {
    match m
    case Hello(bookId, nonce, pointer, features) => bookId + nonce + BE(8, pointer) + BE(4, features)
    case Arbitrate(nonce, pointer, result) => nonce + BE(8, pointer) + [result.Wire()]
    case IssueRequest(pointer, clientNonce, serverNonce) => BE(8, pointer) + clientNonce + serverNonce
    case ConfirmC2s(segment, nonce, epoch, n, sealed) => BE(8, segment) + nonce + BE(4, epoch) + BE(8, n) + sealed
    case ConfirmS2c(segment, nonce, epoch, n, sealed) => BE(8, segment) + nonce + BE(4, epoch) + BE(8, n) + sealed
    case Data(epoch, n, data) => BE(4, epoch) + BE(8, n) + BE(4, |data|) + data
  }

  function Head(t: MsgType, length: nat): (h: seq<byte>)
    ensures |h| == FRAME_HEADER_LEN
  {
    BE(2, VERSION) + BE(2, t.Wire()) + BE(4, length)
  }

  function Frame(m: Message): seq<byte> {
    Head(m.Type(), |Payload(m)|) + Payload(m)
  }

  function PayloadLenOf(m: Message): nat {
    if m.Data? then 16 + |m.data| else m.Type().PayloadLenRange().0
  }

  lemma PayloadLength(m: Message)
    ensures PayloadLenOf(m) == |Payload(m)|
    ensures Unencodable(m) == None ==> m.Type().LengthOk(|Payload(m)|)
  {
  }

  /** Appends the frame, or refuses having appended nothing. */
  method EncodeInto(m: Message, out: seq<byte>) returns (out': seq<byte>, error: Option<ErrorCode>)
    ensures error == Unencodable(m)
    ensures out' == if error == None then out + Frame(m) else out
  {
    hide Payload;
    out', error := out, Unencodable(m);
    if error.Some? {
      return;
    }
    PayloadLength(m);
    out' := out' + BE(2, VERSION);
    out' := out' + BE(2, m.Type().Wire());
    out' := out' + BE(4, PayloadLenOf(m));
    assert out' == out + Head(m.Type(), |Payload(m)|);
    out' := AppendPayload(m, out');
    Associate(out, Head(m.Type(), |Payload(m)|), Payload(m));
  }

  lemma Associate(x: seq<byte>, y: seq<byte>, z: seq<byte>)
    ensures (x + y) + z == x + (y + z)
  {
  }

  method AppendPayload(m: Message, out: seq<byte>) returns (out': seq<byte>)
    ensures out' == out + Payload(m)
  {
    match m {
      case Hello(bookId, nonce, pointer, features) =>
        out' := out + bookId;
        out' := out' + nonce;
        out' := out' + BE(8, pointer);
        out' := out' + BE(4, features);
        assert out' == out + Payload(m);
      case Arbitrate(nonce, pointer, result) =>
        out' := out + nonce;
        out' := out' + BE(8, pointer);
        out' := out' + [result.Wire()];
        assert out' == out + Payload(m);
      case IssueRequest(pointer, clientNonce, serverNonce) =>
        out' := out + BE(8, pointer);
        out' := out' + clientNonce;
        out' := out' + serverNonce;
        assert out' == out + Payload(m);
      case ConfirmC2s(segment, nonce, epoch, n, sealed) =>
        out' := AppendConfirm(out, segment, nonce, epoch, n, sealed);
      case ConfirmS2c(segment, nonce, epoch, n, sealed) =>
        out' := AppendConfirm(out, segment, nonce, epoch, n, sealed);
      case Data(epoch, n, data) =>
        out' := out + BE(4, epoch);
        out' := out' + BE(8, n);
        out' := out' + BE(4, |data|);
        out' := out' + data;
        assert out' == out + Payload(m);
    }
  }

  method AppendConfirm(out: seq<byte>, segment: u64, nonce: Bytes16, epoch: u32, n: u64, sealed: Sealed)
    returns (out': seq<byte>)
    ensures out' == out + (BE(8, segment) + nonce + BE(4, epoch) + BE(8, n) + sealed)
  {
    out' := out + BE(8, segment);
    out' := out' + nonce;
    out' := out' + BE(4, epoch);
    out' := out' + BE(8, n);
    out' := out' + sealed;
  }

  // ---- decoding ----

  function ParseHello(p: seq<byte>): Result<Message, ErrorCode>
    requires |p| == 44
  {
    Ok(Hello(p[0..16], p[16..32], Low64(p[32..40]), Low32(p[40..44])))
  }

  function ParseArbitrate(p: seq<byte>): Result<Message, ErrorCode>
    requires |p| == 25
  {
    match ArbitrateResultFromWire(p[24])
    case None => Err(BadEnum)
    case Some(result) =>
      if result == BookMismatch && Low64(p[16..24]) != 0 then Err(BadEnum)
      else Ok(Arbitrate(p[0..16], Low64(p[16..24]), result))
  }

  function ParseIssue(p: seq<byte>): Result<Message, ErrorCode>
    requires |p| == 40
  {
    Ok(IssueRequest(Low64(p[0..8]), p[8..24], p[24..40]))
  }

  function ParseConfirm(p: seq<byte>): (u64, Bytes16, u32, u64, Sealed)
    requires |p| == 139
  {
    (Low64(p[0..8]), p[8..24], Low32(p[24..28]), Low64(p[28..36]), p[36..139])
  }

  function ParseData(p: seq<byte>): Result<Message, ErrorCode>
    requires |p| >= 16
  {
    var length := Low32(p[12..16]);
    if !(MIN_DATA_FIELD <= length <= MAX_DATA_FIELD) then Err(BadLength)
    else if 16 + length > |p| then Err(BadLength)
    else if 16 + length < |p| then Err(TrailingBytes)
    else Ok(Data(Low32(p[0..4]), Low64(p[4..12]), p[16..16 + length]))
  }

  function ParsePayload(t: MsgType, p: seq<byte>): Result<Message, ErrorCode>
    requires t.LengthOk(|p|)
  {
    match t
    case HelloType => ParseHello(p)
    case ArbitrateType => ParseArbitrate(p)
    case IssueRequestType => ParseIssue(p)
    case ConfirmC2sType => var (g, z, e, n, c) := ParseConfirm(p); Ok(ConfirmC2s(g, z, e, n, c))
    case ConfirmS2cType => var (g, z, e, n, c) := ParseConfirm(p); Ok(ConfirmS2c(g, z, e, n, c))
    case DataType => ParseData(p)
  }

  predicate RoleMayReceive(role: Role, t: MsgType) {
    match t.SendDirection()
    case None => true
    case Some(d) => d == role.SendDirection().Opposite()
  }

  /** The checks in their fixed order: header, version, type, length field, frame end, direction, payload. */
  function Decode(role: Role, buf: seq<byte>): Result<Message, ErrorCode> {
    if |buf| < FRAME_HEADER_LEN then Err(FrameTruncated)
    else if Low16(buf[0..2]) != VERSION then Err(BadVersion)
    else if MsgTypeFromWire(Low16(buf[2..4])).None? then Err(UnknownMsgType)
    else
      var t := MsgTypeFromWire(Low16(buf[2..4])).value;
      var length := Low32(buf[4..8]);
      if !t.LengthOk(length) then Err(BadLength)
      else if |buf| < FRAME_HEADER_LEN + length then Err(FrameTruncated)
      else if |buf| > FRAME_HEADER_LEN + length then Err(TrailingBytes)
      else if !RoleMayReceive(role, t) then Err(WrongDirectionCode)
      else ParsePayload(t, buf[FRAME_HEADER_LEN..])
  }

  // ---- the two are inverse ----

  lemma HeadFields(m: Message)
    requires |Payload(m)| < 0x1_0000_0000
    ensures var f := Frame(m);
            && |f| == FRAME_HEADER_LEN + |Payload(m)| && f[FRAME_HEADER_LEN..] == Payload(m)
            && Low16(f[0..2]) == VERSION && MsgTypeFromWire(Low16(f[2..4])) == Some(m.Type())
            && Low32(f[4..8]) == |Payload(m)|
  {
    hide Payload;
    var f := Frame(m);
    var length := |Payload(m)|;
    assert f[0..2] == BE(2, VERSION) && f[2..4] == BE(2, m.Type().Wire()) && f[4..8] == BE(4, length);
    Pow256Values();
    FromBEOfBE(2, VERSION);
    FromBEOfBE(2, m.Type().Wire());
    FromBEOfBE(4, length);
  }

  lemma ParseOfFixed(m: Message)
    requires m.Hello? || m.Arbitrate? || m.IssueRequest?
    requires Unencodable(m) == None
    ensures m.Type().LengthOk(|Payload(m)|) && ParsePayload(m.Type(), Payload(m)) == Ok(m)
  {
    var p := Payload(m);
    Pow256Values();
    match m {
      case Hello(bookId, nonce, pointer, features) =>
        assert p[0..16] == bookId && p[16..32] == nonce && p[32..40] == BE(8, pointer) && p[40..44] == BE(4, features);
        FromBEOfBE(8, pointer);
        FromBEOfBE(4, features);
      case Arbitrate(nonce, pointer, result) =>
        assert p[0..16] == nonce && p[16..24] == BE(8, pointer);
        FromBEOfBE(8, pointer);
      case IssueRequest(pointer, clientNonce, serverNonce) =>
        assert p[0..8] == BE(8, pointer) && p[8..24] == clientNonce && p[24..40] == serverNonce;
        FromBEOfBE(8, pointer);
    }
  }

  lemma ParseOfData(epoch: u32, n: u64, data: seq<byte>)
    requires MIN_DATA_FIELD <= |data| <= MAX_DATA_FIELD
    ensures ParseData(Payload(Data(epoch, n, data))) == Ok(Data(epoch, n, data))
  {
    var p := Payload(Data(epoch, n, data));
    Pow256Values();
    assert p[0..4] == BE(4, epoch) && p[4..12] == BE(8, n) && p[12..16] == BE(4, |data|) && p[16..16 + |data|] == data;
    FromBEOfBE(4, epoch);
    FromBEOfBE(8, n);
    FromBEOfBE(4, |data|);
  }

  lemma ParseOfPayload(m: Message)
    requires Unencodable(m) == None
    ensures m.Type().LengthOk(|Payload(m)|) && ParsePayload(m.Type(), Payload(m)) == Ok(m)
  {
    hide ParseHello, ParseArbitrate, ParseIssue, ParseConfirm, ParseData;
    PayloadLength(m);
    match m {
      case ConfirmC2s(segment, nonce, epoch, n, sealed) =>
        ConfirmParts(segment, nonce, epoch, n, sealed);
      case ConfirmS2c(segment, nonce, epoch, n, sealed) =>
        ConfirmParts(segment, nonce, epoch, n, sealed);
      case Data(epoch, n, data) =>
        ParseOfData(epoch, n, data);
      case _ =>
        ParseOfFixed(m);
    }
  }

  lemma ConfirmParts(segment: u64, nonce: Bytes16, epoch: u32, n: u64, sealed: Sealed)
    ensures ParseConfirm(BE(8, segment) + nonce + BE(4, epoch) + BE(8, n) + sealed) == (segment, nonce, epoch, n, sealed)
  {
    var p := BE(8, segment) + nonce + BE(4, epoch) + BE(8, n) + sealed;
    assert p[0..8] == BE(8, segment) && p[8..24] == nonce && p[24..28] == BE(4, epoch) && p[28..36] == BE(8, n);
    assert p[36..139] == sealed;
    Pow256Values();
    FromBEOfBE(8, segment);
    FromBEOfBE(4, epoch);
    FromBEOfBE(8, n);
  }

  /** A canonical message comes back to a role that may receive it; the other role refuses the direction. */
  lemma DecodeOfFrame(role: Role, m: Message)
    requires Unencodable(m) == None
    ensures Decode(role, Frame(m)) == if RoleMayReceive(role, m.Type()) then Ok(m) else Err(WrongDirectionCode)
  {
    hide Payload, Frame, ParsePayload;
    PayloadLength(m);
    HeadFields(m);
    ParseOfPayload(m);
  }

  lemma FixedOfParse(t: MsgType, p: seq<byte>)
    requires t.HelloType? || t.ArbitrateType? || t.IssueRequestType?
    requires t.LengthOk(|p|) && ParsePayload(t, p).Ok?
    ensures Payload(ParsePayload(t, p).value) == p
  {
    match t {
      case HelloType =>
        BEOfFromBE(p[32..40]);
        BEOfFromBE(p[40..44]);
        assert p == p[0..16] + p[16..32] + p[32..40] + p[40..44];
      case ArbitrateType =>
        BEOfFromBE(p[16..24]);
        assert p == p[0..16] + p[16..24] + [p[24]];
      case IssueRequestType =>
        BEOfFromBE(p[0..8]);
        assert p == p[0..8] + p[8..24] + p[24..40];
    }
  }

  lemma DataOfParse(p: seq<byte>)
    requires |p| >= 16 && ParseData(p).Ok?
    ensures Payload(ParseData(p).value) == p
  {
    BEOfFromBE(p[0..4]);
    BEOfFromBE(p[4..12]);
    BEOfFromBE(p[12..16]);
    assert p[0..4] == p[..4] && p[..|p|] == p;
    Join(p, 4, 12);
    Join(p, 12, 16);
    Join(p, 16, |p|);
  }

  lemma ConfirmOfParse(p: seq<byte>)
    requires |p| == 139
    ensures var (g, z, e, n, c) := ParseConfirm(p); BE(8, g) + z + BE(4, e) + BE(8, n) + c == p
  {
    BEOfFromBE(p[0..8]);
    BEOfFromBE(p[24..28]);
    BEOfFromBE(p[28..36]);
    assert p[0..8] == p[..8] && p[..139] == p;
    Join(p, 8, 24);
    Join(p, 24, 28);
    Join(p, 28, 36);
    Join(p, 36, 139);
  }

  lemma PayloadOfParse(t: MsgType, p: seq<byte>)
    requires t.LengthOk(|p|) && ParsePayload(t, p).Ok?
    ensures var m := ParsePayload(t, p).value; m.Type() == t && Payload(m) == p && Unencodable(m) == None
  {
    match t {
      case DataType => DataOfParse(p);
      case ConfirmC2sType => ConfirmOfParse(p);
      case ConfirmS2cType => ConfirmOfParse(p);
      case _ => FixedOfParse(t, p);
    }
  }

  /** Whatever is accepted re-encodes to the very bytes that were read. */
  lemma FrameOfDecode(role: Role, buf: seq<byte>)
    requires Decode(role, buf).Ok?
    ensures var m := Decode(role, buf).value;
            Unencodable(m) == None && Frame(m) == buf && RoleMayReceive(role, m.Type())
  {
    hide Payload, ParsePayload;
    var t := MsgTypeFromWire(Low16(buf[2..4])).value;
    PayloadOfParse(t, buf[8..]);
    BEOfFromBE(buf[0..2]);
    BEOfFromBE(buf[2..4]);
    BEOfFromBE(buf[4..8]);
    assert buf[0..2] == buf[..2] && buf[8..|buf|] == buf[8..] && buf[..|buf|] == buf;
    Join(buf, 2, 4);
    Join(buf, 4, 8);
    Join(buf, 8, |buf|);
  }

  /** Cut anywhere short of its end, a canonical frame reads as truncated, whichever role reads it. */
  lemma PrefixIsTruncated(role: Role, m: Message, k: nat)
    requires Unencodable(m) == None && k < |Frame(m)|
    ensures Decode(role, Frame(m)[..k]) == Err(FrameTruncated)
  {
    hide Payload, Frame, ParsePayload;
    PayloadLength(m);
    HeadFields(m);
    var f := Frame(m);
    var cut := f[..k];
    if k >= FRAME_HEADER_LEN {
      assert cut[0..2] == f[0..2] && cut[2..4] == f[2..4] && cut[4..8] == f[4..8];
    }
  }

  // ---- the inner confirm body ----

  function EncodeConfirmBody(b: ConfirmBody): (s: seq<byte>)
    ensures |s| == CONFIRM_BODY_LEN
  {
    BE(2, VERSION) + b.bookId + BE(8, b.segmentIndex) + b.clientNonce + b.serverNonce + [DirectionWire(b.direction)]
    + BE(4, b.epoch) + BE(8, b.seqNo) + BE(2, b.msgType) + b.purpose
  }

  function DecodeConfirmBody(s: seq<byte>): Result<ConfirmBody, ErrorCode> {
    if |s| != CONFIRM_BODY_LEN then Err(BadLength)
    else if Low16(s[0..2]) != VERSION then Err(BadVersion)
    else
      match DirectionFromWire(s[58])
      case None => Err(BadEnum)
      case Some(d) =>
        Ok(ConfirmBody(s[2..18], Low64(s[18..26]), s[26..42], s[42..58], d, Low32(s[59..63]), Low64(s[63..71]),
                       Low16(s[71..73]), s[73..87]))
  }

  lemma DecodeOfConfirmBody(b: ConfirmBody)
    ensures DecodeConfirmBody(EncodeConfirmBody(b)) == Ok(b)
  {
    var s := EncodeConfirmBody(b);
    assert s[0..2] == BE(2, VERSION) && s[2..18] == b.bookId && s[18..26] == BE(8, b.segmentIndex);
    assert s[26..42] == b.clientNonce && s[42..58] == b.serverNonce && s[58] == DirectionWire(b.direction);
    assert s[59..63] == BE(4, b.epoch) && s[63..71] == BE(8, b.seqNo) && s[71..73] == BE(2, b.msgType);
    assert s[73..87] == b.purpose;
    Pow256Values();
    FromBEOfBE(2, VERSION);
    FromBEOfBE(8, b.segmentIndex);
    FromBEOfBE(4, b.epoch);
    FromBEOfBE(8, b.seqNo);
    FromBEOfBE(2, b.msgType);
  }

  lemma ConfirmBodyOfDecode(s: seq<byte>)
    requires DecodeConfirmBody(s).Ok?
    ensures EncodeConfirmBody(DecodeConfirmBody(s).value) == s
  {
    BEOfFromBE(s[0..2]);
    BEOfFromBE(s[18..26]);
    BEOfFromBE(s[59..63]);
    BEOfFromBE(s[63..71]);
    BEOfFromBE(s[71..73]);
    assert s[0..2] == s[..2] && s[58..59] == [s[58]] && s[..87] == s;
    Join(s, 2, 18);
    Join(s, 18, 26);
    Join(s, 26, 42);
    Join(s, 42, 58);
    Join(s, 58, 59);
    Join(s, 59, 63);
    Join(s, 63, 71);
    Join(s, 71, 73);
    Join(s, 73, 87);
  }
}
