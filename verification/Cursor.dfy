/** Field-by-field parsing with a cursor that only moves forward, proved to compute `Codec.Decode`. */
module Cursor {
  import opened Bytes
  import opened Types
  import opened Message
  import opened Codec

  class Cursor {
    const buf: seq<byte>
    var pos: nat

    constructor (buf: seq<byte>)
      ensures this.buf == buf && pos == 0
    {
      this.buf, pos := buf, 0;
    }

    /** The next `n` bytes; past the end it is a length error and the cursor stays. */
    method Take(n: nat) returns (r: Result<seq<byte>, ErrorCode>)
      requires pos <= |buf|
      modifies this
      ensures pos <= |buf|
      ensures r.Ok? <==> old(pos) + n <= |buf|
      ensures r.Ok? ==> pos == old(pos) + n && r.value == buf[old(pos)..pos]
      ensures r.Err? ==> r.error == BadLength && pos == old(pos)
    {
      if pos + n > |buf| {
        return Err(BadLength);
      }
      r := Ok(buf[pos..pos + n]);
      pos := pos + n;
    }

    /** Anything left over is an error. */
    method Done() returns (r: Result<(), ErrorCode>)
      requires pos <= |buf|
      ensures r == if pos == |buf| then Ok(()) else Err(TrailingBytes)
    {
      r := if pos == |buf| then Ok(()) else Err(TrailingBytes);
    }
  }

  method TakeU64(c: Cursor) returns (r: Result<u64, ErrorCode>)
    requires c.pos <= |c.buf|
    modifies c
    ensures c.pos <= |c.buf| && (r.Ok? <==> old(c.pos) + 8 <= |c.buf|)
    ensures r.Ok? ==> c.pos == old(c.pos) + 8 && r.value == Low64(c.buf[old(c.pos)..c.pos])
    ensures r.Err? ==> r.error == BadLength
  {
    var b := c.Take(8);
    r := if b.Ok? then Ok(Low64(b.value)) else Err(b.error);
  }

  method TakeU32(c: Cursor) returns (r: Result<u32, ErrorCode>)
    requires c.pos <= |c.buf|
    modifies c
    ensures c.pos <= |c.buf| && (r.Ok? <==> old(c.pos) + 4 <= |c.buf|)
    ensures r.Ok? ==> c.pos == old(c.pos) + 4 && r.value == Low32(c.buf[old(c.pos)..c.pos])
    ensures r.Err? ==> r.error == BadLength
  {
    var b := c.Take(4);
    r := if b.Ok? then Ok(Low32(b.value)) else Err(b.error);
  }

  method TakeFixed16(c: Cursor) returns (r: Result<Bytes16, ErrorCode>)
    requires c.pos <= |c.buf|
    modifies c
    ensures c.pos <= |c.buf| && (r.Ok? <==> old(c.pos) + 16 <= |c.buf|)
    ensures r.Ok? ==> c.pos == old(c.pos) + 16 && r.value == c.buf[old(c.pos)..c.pos]
    ensures r.Err? ==> r.error == BadLength
  {
    var b := c.Take(16);
    r := if b.Ok? then Ok(b.value) else Err(b.error);
  }

  method DecodeHello(p: seq<byte>) returns (r: Result<Message, ErrorCode>)
    ensures |p| == 44 ==> r == ParseHello(p)
    ensures |p| < 44 ==> r == Err(BadLength)
    ensures |p| > 44 ==> r == Err(TrailingBytes)
  {
    var c := new Cursor(p);
    var bookId := TakeFixed16(c);
    if bookId.Err? {
      return Err(bookId.error);
    }
    var nonce := TakeFixed16(c);
    if nonce.Err? {
      return Err(nonce.error);
    }
    var pointer := TakeU64(c);
    if pointer.Err? {
      return Err(pointer.error);
    }
    var features := TakeU32(c);
    if features.Err? {
      return Err(features.error);
    }
    var done := c.Done();
    r := if done.Err? then Err(done.error) else Ok(Hello(bookId.value, nonce.value, pointer.value, features.value));
  }

  method DecodeArbitrate(p: seq<byte>) returns (r: Result<Message, ErrorCode>)
    ensures |p| == 25 ==> r == ParseArbitrate(p)
    ensures |p| < 25 ==> r == Err(BadLength)
  {
    var c := new Cursor(p);
    var nonce := TakeFixed16(c);
    if nonce.Err? {
      return Err(nonce.error);
    }
    var pointer := TakeU64(c);
    if pointer.Err? {
      return Err(pointer.error);
    }
    var code := c.Take(1);
    if code.Err? {
      return Err(code.error);
    }
    var result := ArbitrateResultFromWire(code.value[0]);
    if result.None? {
      return Err(BadEnum);
    }
    var done := c.Done();
    if done.Err? {
      return Err(done.error);
    }
    if result.value == BookMismatch && pointer.value != 0 {
      return Err(BadEnum);
    }
    r := Ok(Arbitrate(nonce.value, pointer.value, result.value));
  }

  method DecodeIssue(p: seq<byte>) returns (r: Result<Message, ErrorCode>)
    ensures |p| == 40 ==> r == ParseIssue(p)
    ensures |p| < 40 ==> r == Err(BadLength)
    ensures |p| > 40 ==> r == Err(TrailingBytes)
  {
    var c := new Cursor(p);
    var pointer := TakeU64(c);
    if pointer.Err? {
      return Err(pointer.error);
    }
    var clientNonce := TakeFixed16(c);
    if clientNonce.Err? {
      return Err(clientNonce.error);
    }
    var serverNonce := TakeFixed16(c);
    if serverNonce.Err? {
      return Err(serverNonce.error);
    }
    var done := c.Done();
    r := if done.Err? then Err(done.error) else Ok(IssueRequest(pointer.value, clientNonce.value, serverNonce.value));
  }

  method DecodeConfirm(p: seq<byte>) returns (r: Result<(u64, Bytes16, u32, u64, Sealed), ErrorCode>)
    ensures |p| == 139 ==> r == Ok(ParseConfirm(p))
    ensures |p| < 139 ==> r == Err(BadLength)
    ensures |p| > 139 ==> r == Err(TrailingBytes)
  {
    var c := new Cursor(p);
    var segment := TakeU64(c);
    if segment.Err? {
      return Err(segment.error);
    }
    var nonce := TakeFixed16(c);
    if nonce.Err? {
      return Err(nonce.error);
    }
    var epoch := TakeU32(c);
    if epoch.Err? {
      return Err(epoch.error);
    }
    var n := TakeU64(c);
    if n.Err? {
      return Err(n.error);
    }
    var sealed := c.Take(SEALED_LEN);
    if sealed.Err? {
      return Err(sealed.error);
    }
    var done := c.Done();
    r := if done.Err? then Err(done.error) else Ok((segment.value, nonce.value, epoch.value, n.value, sealed.value));
  }

  method DecodeData(p: seq<byte>) returns (r: Result<Message, ErrorCode>)
    ensures |p| >= 16 ==> r == ParseData(p)
    ensures |p| < 16 ==> r == Err(BadLength)
  {
    var c := new Cursor(p);
    var epoch := TakeU32(c);
    if epoch.Err? {
      return Err(epoch.error);
    }
    var n := TakeU64(c);
    if n.Err? {
      return Err(n.error);
    }
    var length := TakeU32(c);
    if length.Err? {
      return Err(length.error);
    }
    if !(MIN_DATA_FIELD <= length.value <= MAX_DATA_FIELD) {
      return Err(BadLength);
    }
    var data := c.Take(length.value);
    if data.Err? {
      return Err(data.error);
    }
    var done := c.Done();
    r := if done.Err? then Err(done.error) else Ok(Data(epoch.value, n.value, data.value));
  }

  method DecodeFrame(role: Role, buf: seq<byte>) returns (r: Result<Message, ErrorCode>)
    ensures r == Decode(role, buf)
  {
    if |buf| < FRAME_HEADER_LEN {
      return Err(FrameTruncated);
    }
    if Low16(buf[0..2]) != VERSION {
      return Err(BadVersion);
    }
    var msgType := MsgTypeFromWire(Low16(buf[2..4]));
    if msgType.None? {
      return Err(UnknownMsgType);
    }
    var length := Low32(buf[4..8]);
    if !msgType.value.LengthOk(length) {
      return Err(BadLength);
    }
    if |buf| < FRAME_HEADER_LEN + length {
      return Err(FrameTruncated);
    }
    if |buf| > FRAME_HEADER_LEN + length {
      return Err(TrailingBytes);
    }
    if !RoleMayReceive(role, msgType.value) {
      return Err(WrongDirectionCode);
    }
    r := DecodePayload(msgType.value, buf[FRAME_HEADER_LEN..]);
  }

  method DecodePayload(t: MsgType, p: seq<byte>) returns (r: Result<Message, ErrorCode>)
    requires t.LengthOk(|p|)
    ensures r == ParsePayload(t, p)
  {
    match t {
      case HelloType => r := DecodeHello(p);
      case ArbitrateType => r := DecodeArbitrate(p);
      case IssueRequestType => r := DecodeIssue(p);
      case DataType => r := DecodeData(p);
      case _ =>
        var parts := DecodeConfirm(p);
        var (g, z, e, n, c) := parts.value;
        r := Ok(if t == ConfirmC2sType then ConfirmC2s(g, z, e, n, c) else ConfirmS2c(g, z, e, n, c));
    }
  }
}
