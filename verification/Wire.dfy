/** OTP_DATA frames: a 34-byte canonical header, the ciphertext, a 16-byte tag. */
module Wire {
  import opened Bytes
  import opened Types

  const OTP_VERSION: u16 := 0x0003
  const MSG_TYPE_OTP_DATA: u16 := 0x0010
  const MODE_FULL_OTP_POLY1305: byte := 0x01
  const HEADER_LEN := 34
  const MIN_CIPHERTEXT_LEN := 1
  const MAX_CIPHERTEXT_LEN := 4064
  const MAX_FRAME_LEN := HEADER_LEN + MAX_CIPHERTEXT_LEN + TAG_LEN
  const PAD_HALF := 4096
  const MAC_KEY_LEN := 32

  datatype WireError =
    | TooShort | TooLong | Version | MsgType | Mode | DirectionCode | CiphertextLen | LengthMismatch | OffsetBounds

  datatype OtpDataRecord = OtpDataRecord(
    direction: Direction, bundleId: u64, baseSegment: u64, recordSeq: u64, padOffset: u16,
    ciphertext: seq<byte>, tag: Bytes16)

  /** The length goes out as its low sixteen bits. */
  function CanonicalHeader(d: Direction, bundleId: u64, baseSegment: u64, recordSeq: u64, padOffset: u16, length: nat)
    : (h: seq<byte>)
    ensures |h| == HEADER_LEN
  {
    BE(2, OTP_VERSION) + BE(2, MSG_TYPE_OTP_DATA) + [MODE_FULL_OTP_POLY1305, DirectionWire(d)]
    + BE(8, bundleId) + BE(8, baseSegment) + BE(8, recordSeq) + BE(2, padOffset) + BE(2, length)
  }

  function Header(r: OtpDataRecord): seq<byte> {
    CanonicalHeader(r.direction, r.bundleId, r.baseSegment, r.recordSeq, r.padOffset, |r.ciphertext|)
  }

  function Encode(r: OtpDataRecord): seq<byte> {
    Header(r) + r.ciphertext + r.tag
  }

  method EncodeInto(r: OtpDataRecord, out: seq<byte>) returns (out': seq<byte>)
    ensures out' == out + Encode(r)
  {
    out' := out + CanonicalHeader(r.direction, r.bundleId, r.baseSegment, r.recordSeq, r.padOffset, |r.ciphertext|);
    out' := out' + r.ciphertext;
    out' := out' + r.tag;
  }

  function Decode(bytes: seq<byte>): Result<OtpDataRecord, WireError> {
    if |bytes| < HEADER_LEN + MIN_CIPHERTEXT_LEN + TAG_LEN then Err(TooShort)
    else if |bytes| > MAX_FRAME_LEN then Err(TooLong)
    else if Low16(bytes[0..2]) != OTP_VERSION then Err(Version)
    else if Low16(bytes[2..4]) != MSG_TYPE_OTP_DATA then Err(MsgType)
    else if bytes[4] != MODE_FULL_OTP_POLY1305 then Err(Mode)
    else if DirectionFromWire(bytes[5]).None? then Err(DirectionCode)
    else
      var padOffset := Low16(bytes[30..32]);
      var length := Low16(bytes[32..34]);
      if !(MIN_CIPHERTEXT_LEN <= length <= MAX_CIPHERTEXT_LEN) then Err(CiphertextLen)
      else if |bytes| != HEADER_LEN + length + TAG_LEN then Err(LengthMismatch)
      else if padOffset + MAC_KEY_LEN + length > PAD_HALF then Err(OffsetBounds)
      else
        Ok(OtpDataRecord(DirectionFromWire(bytes[5]).value, Low64(bytes[6..14]), Low64(bytes[14..22]),
                         Low64(bytes[22..30]), padOffset,
                         bytes[HEADER_LEN..HEADER_LEN + length], bytes[|bytes| - TAG_LEN..]))
  }

  /** The records the decoder's length and offset bounds admit. */
  predicate InBounds(r: OtpDataRecord) {
    MIN_CIPHERTEXT_LEN <= |r.ciphertext| <= MAX_CIPHERTEXT_LEN &&
    r.padOffset + MAC_KEY_LEN + |r.ciphertext| <= PAD_HALF
  }

  lemma HeaderFields(r: OtpDataRecord)
    ensures var h := Header(r);
            && h[0..2] == BE(2, OTP_VERSION) && h[2..4] == BE(2, MSG_TYPE_OTP_DATA)
            && h[4] == MODE_FULL_OTP_POLY1305 && h[5] == DirectionWire(r.direction)
            && h[6..14] == BE(8, r.bundleId) && h[14..22] == BE(8, r.baseSegment) && h[22..30] == BE(8, r.recordSeq)
            && h[30..32] == BE(2, r.padOffset) && h[32..34] == BE(2, |r.ciphertext|)
  {
  }

  /** A slice inside the first part of a concatenation. */
  lemma SliceOfAppend(s: seq<byte>, t: seq<byte>, i: nat, j: nat)
    requires i <= j <= |s|
    ensures (s + t)[i..j] == s[i..j]
  {
  }

  lemma EncodeFields(r: OtpDataRecord)
    ensures var bytes := Encode(r);
            && |bytes| == HEADER_LEN + |r.ciphertext| + TAG_LEN
            && Low16(bytes[0..2]) == OTP_VERSION && Low16(bytes[2..4]) == MSG_TYPE_OTP_DATA
            && bytes[4] == MODE_FULL_OTP_POLY1305 && bytes[5] == DirectionWire(r.direction)
            && Low64(bytes[6..14]) == r.bundleId && Low64(bytes[14..22]) == r.baseSegment
            && Low64(bytes[22..30]) == r.recordSeq && Low16(bytes[30..32]) == r.padOffset
            && bytes[32..34] == BE(2, |r.ciphertext|)
            && bytes[HEADER_LEN..HEADER_LEN + |r.ciphertext|] == r.ciphertext
            && bytes[|bytes| - TAG_LEN..] == r.tag
  {
    var bytes := Encode(r);
    var h, rest := Header(r), r.ciphertext + r.tag;
    HeaderFields(r);
    assert bytes == h + rest;
    SliceOfAppend(h, rest, 0, 2);
    SliceOfAppend(h, rest, 2, 4);
    SliceOfAppend(h, rest, 6, 14);
    SliceOfAppend(h, rest, 14, 22);
    SliceOfAppend(h, rest, 22, 30);
    SliceOfAppend(h, rest, 30, 32);
    SliceOfAppend(h, rest, 32, 34);
    Pow256Values();
    FromBEOfBE(2, OTP_VERSION);
    FromBEOfBE(2, MSG_TYPE_OTP_DATA);
    FromBEOfBE(8, r.bundleId);
    FromBEOfBE(8, r.baseSegment);
    FromBEOfBE(8, r.recordSeq);
    FromBEOfBE(2, r.padOffset);
  }

  /** Exactly the records within bounds survive encoding then decoding. */
  lemma DecodeOfEncode(r: OtpDataRecord)
    ensures InBounds(r) ==> Decode(Encode(r)) == Ok(r)
    ensures !InBounds(r) ==> Decode(Encode(r)).Err?
  {
    EncodeFields(r);
    if |r.ciphertext| <= MAX_CIPHERTEXT_LEN {
      Pow256Values();
      FromBEOfBE(2, |r.ciphertext|);
    }
  }

  /** An accepted frame is exactly the encoding of what it decodes to. */
  lemma EncodeOfDecode(bytes: seq<byte>)
    requires Decode(bytes).Ok?
    ensures InBounds(Decode(bytes).value) && Encode(Decode(bytes).value) == bytes
  {
    var r := Decode(bytes).value;
    BEOfFromBE(bytes[0..2]);
    BEOfFromBE(bytes[2..4]);
    BEOfFromBE(bytes[6..14]);
    BEOfFromBE(bytes[14..22]);
    BEOfFromBE(bytes[22..30]);
    BEOfFromBE(bytes[30..32]);
    BEOfFromBE(bytes[32..34]);
    assert bytes[0..2] == bytes[..2] && bytes[4..6] == [bytes[4], bytes[5]];
    Join(bytes, 2, 4);
    Join(bytes, 4, 6);
    Join(bytes, 6, 14);
    Join(bytes, 14, 22);
    Join(bytes, 22, 30);
    Join(bytes, 30, 32);
    Join(bytes, 32, 34);
    var end := HEADER_LEN + |r.ciphertext|;
    Join(bytes, 34, end);
    Join(bytes, end, |bytes|);
    assert bytes[end..|bytes|] == bytes[|bytes| - TAG_LEN..] && bytes[..|bytes|] == bytes;
    assert Header(r) == bytes[..34];
  }
}
