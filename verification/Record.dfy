/** Sealing and opening one OTP_DATA record: one-time Poly1305 over public bytes, exclusive-or for secrecy. */
module Record {
  import opened Bytes
  import opened Types
  import opened Wire
  import opened Pad

  /** The authenticator is a parameter: only that it is a function matters here. */
  type Mac = (Bytes32, seq<byte>) -> Bytes16

  /** ASCII "otp-term/full-otp/data/v1". */
  const DOMAIN_SEPARATOR: seq<byte> := [
    0x6F, 0x74, 0x70, 0x2D, 0x74, 0x65, 0x72, 0x6D, 0x2F, 0x66, 0x75, 0x6C, 0x6C, 0x2D, 0x6F, 0x74, 0x70, 0x2F,
    0x64, 0x61, 0x74, 0x61, 0x2F, 0x76, 0x31]

  datatype OtpError =
    | WireFormat(error: WireError)
    | WrongDirection | BundleMismatch | Replay | Gap | Offset | TagInvalid | Closed | DoesNotFit

  datatype OpenExpectation = OpenExpectation(direction: Direction, bundleId: nat, baseSegment: nat, recordSeq: u64)

  function MacInput(header: seq<byte>, ciphertext: seq<byte>): seq<byte> {
    DOMAIN_SEPARATOR + BE(2, |DOMAIN_SEPARATOR|) + header + ciphertext
  }

  /** The record a stream produces at its cursor. */
  function SealedRecord(mac: Mac, s: Stream, d: Direction, seqNo: u64, plaintext: seq<byte>): (r: OtpDataRecord)
    requires s.Valid() && s.Fits(|plaintext|)
  {
    var ciphertext := XorSeq(plaintext, s.PadBytes(|plaintext|));
    var header := CanonicalHeader(d, s.bundleId, s.baseSegment, seqNo, s.cursor, |plaintext|);
    OtpDataRecord(d, s.bundleId, s.baseSegment, seqNo, s.cursor, ciphertext,
                  mac(s.MacKey(), MacInput(header, ciphertext)))
  }

  /** Everything a record is checked for before any key byte is used. */
  function Precheck(s: Stream, want: OpenExpectation, r: OtpDataRecord): Option<OtpError>
    requires s.Valid()
  {
    if r.direction != want.direction then Some(WrongDirection)
    else if r.bundleId != want.bundleId || r.baseSegment != want.baseSegment then Some(BundleMismatch)
    else if r.recordSeq < want.recordSeq then Some(Replay)
    else if r.recordSeq > want.recordSeq then Some(Gap)
    else if r.padOffset != s.cursor then Some(Offset)
    else if !s.Fits(|r.ciphertext|) then Some(Offset)
    else None
  }

  /** What opening leaves of the stream, and the plaintext or the error. */
  function Open(mac: Mac, s: Stream, want: OpenExpectation, frame: seq<byte>)
    : (r: (Stream, Result<seq<byte>, OtpError>))
    requires s.Valid()
    ensures r.0.Valid() && r.0.bundleId == s.bundleId && r.0.baseSegment == s.baseSegment
    ensures r.1.Ok? ==> s.Fits(|r.1.value|) && r.0 == s.Spent(|r.1.value|)
    ensures r.1.Err? ==> r.0 == s || (s.Fits(0) && r.0 == s.KeyTaken() && r.1.error == TagInvalid)
  {
    match Decode(frame)
    case Err(e) => (s, Err(WireFormat(e)))
    case Ok(r) =>
      var error := Precheck(s, want, r);
      var l := |r.ciphertext|;
      if error.Some? then (s, Err(error.value))
      else if mac(s.MacKey(), MacInput(Header(r), r.ciphertext)) != r.tag then (s.KeyTaken(), Err(TagInvalid))
      else (s.Spent(l), Ok(XorSeq(r.ciphertext, s.PadBytes(l))))
  }

  method SealRecord(mac: Mac, stream: PadStream, d: Direction, seqNo: u64, plaintext: seq<byte>)
    returns (r: Result<OtpDataRecord, OtpError>)
    requires stream.Valid()
    modifies stream, stream.buf
    ensures stream.Valid()
    ensures r.Ok? <==> |plaintext| > 0 && old(stream.Value().Fits(|plaintext|))
    ensures r.Ok? ==> r.value == SealedRecord(mac, old(stream.Value()), d, seqNo, plaintext)
    ensures r.Ok? ==> stream.Value() == old(stream.Value().Spent(|plaintext|))
    ensures r.Ok? ==> Mixed(plaintext, old(stream.buf[stream.cursor + 32..stream.cursor + 32 + |plaintext|]), r.value.ciphertext)
    ensures r.Err? ==> r.error == DoesNotFit && stream.Value() == old(stream.Value())
  {
    hide Mixed;
    ghost var s := stream.Value();
    var l := |plaintext|;
    if l == 0 {
      return Err(DoesNotFit);
    }
    var fits := stream.Fits(l);
    if !fits {
      return Err(DoesNotFit);
    }
    var bundleId, baseSegment, padOffset := stream.bundleId, stream.baseSegment, stream.cursor;
    var key := stream.TakeMacKey();
    var ciphertext := new byte[l](i requires 0 <= i < l => plaintext[i]);
    assert ciphertext[..] == plaintext;
    BurnInTwo(s, l);
    stream.XorBurnPad(ciphertext);
    stream.Advance(l);
    var header := CanonicalHeader(d, bundleId, baseSegment, seqNo, padOffset, l);
    var tag := mac(key, MacInput(header, ciphertext[..]));
    r := Ok(OtpDataRecord(d, bundleId, baseSegment, seqNo, padOffset, ciphertext[..], tag));
  }

  method OpenRecord(mac: Mac, stream: PadStream, want: OpenExpectation, frame: seq<byte>)
    returns (r: Result<seq<byte>, OtpError>)
    requires stream.Valid()
    modifies stream, stream.buf
    ensures stream.Valid()
    ensures (stream.Value(), r) == Open(mac, old(stream.Value()), want, frame)
    ensures r.Ok? ==> Decode(frame).Ok? &&
                      Mixed(Decode(frame).value.ciphertext,
                            old(stream.buf[stream.cursor + 32..stream.cursor + 32 + |r.value|]), r.value)
  {
    hide Mixed, XorSeq, Decode, Header, MacInput;
    ghost var s := stream.Value();
    var decoded := Decode(frame);
    if decoded.Err? {
      return Err(WireFormat(decoded.error));
    }
    var record := decoded.value;
    if record.direction != want.direction {
      return Err(WrongDirection);
    }
    if record.bundleId != want.bundleId || record.baseSegment != want.baseSegment {
      return Err(BundleMismatch);
    }
    if record.recordSeq < want.recordSeq {
      return Err(Replay);
    }
    if record.recordSeq > want.recordSeq {
      return Err(Gap);
    }
    if record.padOffset != stream.cursor {
      return Err(Offset);
    }
    var l := |record.ciphertext|;
    var fits := stream.Fits(l);
    if !fits {
      return Err(Offset);
    }
    var key := stream.TakeMacKey();
    var tag := mac(key, MacInput(Header(record), record.ciphertext));
    if tag != record.tag {
      return Err(TagInvalid);
    }
    var plaintext := new byte[l](i requires 0 <= i < l => record.ciphertext[i]);
    assert plaintext[..] == record.ciphertext;
    BurnInTwo(s, l);
    stream.XorBurnPad(plaintext);
    stream.Advance(l);
    r := Ok(plaintext[..]);
  }

  /** Whatever is sealed passes the decoder's bounds and comes back unchanged from the wire. */
  lemma SealedDecodes(mac: Mac, s: Stream, d: Direction, seqNo: u64, plaintext: seq<byte>)
    requires s.Valid() && |plaintext| > 0 && s.Fits(|plaintext|)
    ensures var r := SealedRecord(mac, s, d, seqNo, plaintext);
            InBounds(r) && Decode(Encode(r)) == Ok(r)
  {
    DecodeOfEncode(SealedRecord(mac, s, d, seqNo, plaintext));
  }

  /**
   * Opening succeeds iff the frame decodes to exactly the record expected at the cursor and its tag is that of the key
   * there; it then gives the ciphertext mixed with the pad behind the key.
   */
  lemma OpenMeans(mac: Mac, s: Stream, want: OpenExpectation, frame: seq<byte>)
    requires s.Valid()
    ensures Open(mac, s, want, frame).1.Ok? <==>
            && Decode(frame).Ok?
            && var r := Decode(frame).value;
            && r.direction == want.direction && r.bundleId == want.bundleId && r.baseSegment == want.baseSegment
            && r.recordSeq == want.recordSeq && r.padOffset == s.cursor && s.cursor + 32 + |r.ciphertext| <= 4096
            && r.tag == mac(s.buf[s.cursor..s.cursor + 32], MacInput(Header(r), r.ciphertext))
    ensures var (s', p) := Open(mac, s, want, frame);
            p.Ok? ==>
              var c := Decode(frame).value.ciphertext;
              && |p.value| == |c| && s'.cursor == s.cursor + 32 + |c|
              && Mixed(c, s.buf[s.cursor + 32..s.cursor + 32 + |c|], p.value)
  {
    hide Decode, Header, MacInput, XorSeq, Mixed, Burned;
    if Open(mac, s, want, frame).1.Ok? {
      var c := Decode(frame).value.ciphertext;
      XorSeqMixes(c, s.PadBytes(|c|));
    }
  }

  /** Why opening fails: the first of the checks, in this order, that the frame does not pass. */
  lemma OpenRefuses(mac: Mac, s: Stream, want: OpenExpectation, frame: seq<byte>)
    requires s.Valid()
    ensures var o := Open(mac, s, want, frame).1;
            match Decode(frame)
            case Err(e) => o == Err(WireFormat(e))
            case Ok(r) =>
              var here := r.direction == want.direction;
              var bundle := here && r.bundleId == want.bundleId && r.baseSegment == want.baseSegment;
              var inTurn := bundle && r.recordSeq == want.recordSeq;
              var place := inTurn && r.padOffset == s.cursor && s.cursor + 32 + |r.ciphertext| <= 4096;
              && (o == Err(WrongDirection) <==> !here)
              && (o == Err(BundleMismatch) <==> here && !bundle)
              && (o == Err(Replay) <==> bundle && r.recordSeq < want.recordSeq)
              && (o == Err(Gap) <==> bundle && r.recordSeq > want.recordSeq)
              && (o == Err(Offset) <==> inTurn && !place)
              && (o == Err(TagInvalid) <==> place && o.Err?)
  {
    hide Decode, Header, MacInput, XorSeq, Burned;
  }

  // ---- what the pad hides ----

  /** The stream with other bytes in place of the pad of its next record. */
  function WithPad(s: Stream, pad: seq<byte>): (t: Stream)
    requires s.Valid() && s.Fits(|pad|)
    ensures t.Valid() && t.Fits(|pad|) && t.MacKey() == s.MacKey() && t.PadBytes(|pad|) == pad
  {
    s.(buf := s.buf[..s.cursor + MAC_KEY_LEN] + pad + s.buf[s.cursor + MAC_KEY_LEN + |pad|..])
  }

  /** A ciphertext of the length of the plaintext comes from exactly one pad. */
  lemma OnePadPerCiphertext(mac: Mac, s: Stream, d: Direction, seqNo: u64, p: seq<byte>, c: seq<byte>)
    requires s.Valid() && s.Fits(|p|) && |c| == |p|
    ensures SealedRecord(mac, s, d, seqNo, p).ciphertext == c <==> s.PadBytes(|p|) == XorSeq(p, c)
    ensures SealedRecord(mac, WithPad(s, XorSeq(p, c)), d, seqNo, p).ciphertext == c
    ensures Mixed(p, s.PadBytes(|p|), SealedRecord(mac, s, d, seqNo, p).ciphertext)
  {
    hide XorSeq, Mixed;
    OnePad(p, s.PadBytes(|p|), c);
    OnePad(p, XorSeq(p, c), c);
    XorSeqMixes(p, s.PadBytes(|p|));
  }

  /**
   * A record says nothing about its plaintext but the length: under exactly one pad any other plaintext of that
   * length gives the very same record, tag and all.
   */
  lemma RecordHidesPlaintext(mac: Mac, s: Stream, d: Direction, seqNo: u64, p: seq<byte>, q: seq<byte>, pad: seq<byte>)
    requires s.Valid() && s.Fits(|p|) && |p| == |q| == |pad|
    ensures var r := SealedRecord(mac, s, d, seqNo, p);
            SealedRecord(mac, WithPad(s, pad), d, seqNo, q) == r <==> pad == XorSeq(q, r.ciphertext)
  {
    hide XorSeq;
    OnePad(q, pad, SealedRecord(mac, s, d, seqNo, p).ciphertext);
  }

  // ---- what the tag covers ----

  /** No two pairs of a header and a ciphertext are authenticated as the same bytes. */
  lemma MacInputInjective(h: seq<byte>, c: seq<byte>, h': seq<byte>, c': seq<byte>)
    requires |h| == |h'| && MacInput(h, c) == MacInput(h', c')
    ensures h == h' && c == c'
  {
    var n := |DOMAIN_SEPARATOR| + 2;
    assert h == MacInput(h, c)[n..n + |h|] == MacInput(h', c')[n..n + |h|] == h';
    assert c == MacInput(h, c)[n + |h|..] == MacInput(h', c')[n + |h|..] == c';
  }

  /** Records authenticated as the same bytes, with the same tag, are the same frame. */
  lemma SameInputSameFrame(r: OtpDataRecord, r': OtpDataRecord)
    requires MacInput(Header(r), r.ciphertext) == MacInput(Header(r'), r'.ciphertext) && r.tag == r'.tag
    ensures Encode(r) == Encode(r')
  {
    MacInputInjective(Header(r), r.ciphertext, Header(r'), r'.ciphertext);
  }

  /** Two streams at the same place with the same bytes still ahead of the cursor. */
  predicate SameAhead(s: Stream, t: Stream) {
    s.bundleId == t.bundleId && s.baseSegment == t.baseSegment && s.cursor == t.cursor <= PAD_HALF &&
    s.buf[s.cursor..] == t.buf[t.cursor..]
  }

  /** A receiver in step with the sender gets the plaintext back and stays in step. */
  lemma OpenOfSealed(mac: Mac, s: Stream, t: Stream, d: Direction, seqNo: u64, plaintext: seq<byte>)
    requires s.Valid() && t.Valid() && SameAhead(s, t)
    requires |plaintext| > 0 && s.Fits(|plaintext|)
    ensures var frame := Encode(SealedRecord(mac, s, d, seqNo, plaintext));
            var want := OpenExpectation(d, t.bundleId, t.baseSegment, seqNo);
            Open(mac, t, want, frame) == (t.Spent(|plaintext|), Ok(plaintext)) &&
            SameAhead(s.Spent(|plaintext|), t.Spent(|plaintext|))
  {
    var l := |plaintext|;
    SealedDecodes(mac, s, d, seqNo, plaintext);
    SameMaterial(s, t, l);
    XorSeqUndo(plaintext, s.PadBytes(l));
  }

  lemma SameMaterial(s: Stream, t: Stream, l: nat)
    requires s.Valid() && t.Valid() && SameAhead(s, t) && s.Fits(l)
    ensures s.MacKey() == t.MacKey() && s.PadBytes(l) == t.PadBytes(l)
    ensures SameAhead(s.Spent(l), t.Spent(l))
  {
    var c := s.cursor;
    assert forall i | c <= i < PAD_HALF :: s.buf[i] == s.buf[c..][i - c] && t.buf[i] == t.buf[c..][i - c];
    assert s.Spent(l).buf[c + MAC_KEY_LEN + l..] == s.buf[c + MAC_KEY_LEN + l..];
    assert t.Spent(l).buf[c + MAC_KEY_LEN + l..] == t.buf[c + MAC_KEY_LEN + l..];
  }
}
