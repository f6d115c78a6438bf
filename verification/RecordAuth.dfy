/**
 * The one-time authenticator idealised as a log of what was sealed: whatever two parties are made to do, and whatever
 * is put on the channel between them, a pump delivers the records of the other, byte for byte, in order and with the
 * plaintext they were sealed from, or it delivers nothing.
 */
module RecordAuth {
  import opened Bytes
  import opened Types
  import opened Wire
  import opened Pad
  import opened Record
  import opened PumpSpec
  import opened PadUse
  import opened PumpRuns

  /** A record that went out, the key it was authenticated under and the plaintext it holds. */
  datatype Sealing = Sealing(key: Bytes32, record: OtpDataRecord, plaintext: seq<byte>)

  datatype Delivery = Delivery(frame: seq<byte>, plaintext: seq<byte>)

  /** The tag is that of this very key, header and ciphertext. */
  predicate Genuine(mac: Mac, e: Sealing) {
    e.record.tag == mac(e.key, MacInput(Header(e.record), e.record.ciphertext))
  }

  function SealedBy(mac: Mac, p: PumpState, c: Call): seq<Sealing>
    requires Callable(p, c)
  {
    match c
    case CallSend(plaintext) =>
      (match Send(mac, p, plaintext).1
       case Ok(Sent(record, n, _)) =>
         SendMeans(mac, p, plaintext);
         [Sealing(Sender(p).PlaneOf(p.SendDir()).current.MacKey(), record, plaintext[..n])]
       case _ => [])
    case _ => []
  }

  function DeliveredBy(mac: Mac, q: PumpState, c: Call): seq<Delivery>
    requires Callable(q, c)
  {
    match c
    case CallReceive(frame) =>
      (match Receive(mac, q, frame).1
       case Ok(Received(plaintext, _)) => [Delivery(frame, plaintext)]
       case _ => [])
    case _ => []
  }

  function SealLog(mac: Mac, p: PumpState, calls: seq<Call>): seq<Sealing>
    requires CallsPossible(mac, p, calls)
    decreases |calls|
  {
    if |calls| == 0 then [] else SealedBy(mac, p, calls[0]) + SealLog(mac, After(mac, p, calls[0]), calls[1..])
  }

  function Deliveries(mac: Mac, q: PumpState, calls: seq<Call>): seq<Delivery>
    requires CallsPossible(mac, q, calls)
    decreases |calls|
  {
    if |calls| == 0 then [] else DeliveredBy(mac, q, calls[0]) + Deliveries(mac, After(mac, q, calls[0]), calls[1..])
  }

  // ---- one frame ----

  /** Some record of the log was authenticated under the key the pump stands on, as the bytes this frame would be. */
  predicate InLog(s: Stream, frame: seq<byte>, log: seq<Sealing>)
    requires s.Valid() && Decode(frame).Ok? && s.Fits(0)
  {
    var rec := Decode(frame).value;
    exists e <- log ::
      e.key == s.MacKey() && MacInput(Header(e.record), e.record.ciphertext) == MacInput(Header(rec), rec.ciphertext)
  }

  /** If the pump would accept the frame, its header and ciphertext were authenticated under just that key before. */
  predicate Authentic(mac: Mac, q: PumpState, c: Call, log: seq<Sealing>)
    requires q.Valid()
  {
    c.CallReceive? && !q.closed && Expected(mac, Receiver(q, c.frame), c.frame) ==>
      InLog(Receiver(q, c.frame).PlaneOf(q.RecvDir()).current, c.frame, log)
  }

  /** Of all the frames a pump is fed it would accept only ones made from the log: nothing it is given is forged. */
  predicate Unforged(mac: Mac, q: PumpState, calls: seq<Call>, log: seq<Sealing>)
    requires CallsPossible(mac, q, calls)
    decreases |calls|
  {
    |calls| == 0 ||
    (Authentic(mac, q, calls[0], log) && Unforged(mac, After(mac, q, calls[0]), calls[1..], log))
  }

  /** A frame that opens, if it is not forged, is byte for byte the frame of a record that was sealed. */
  lemma OpenedIsSealed(mac: Mac, s: Stream, want: OpenExpectation, frame: seq<byte>, log: seq<Sealing>)
    requires s.Valid() && Open(mac, s, want, frame).1.Ok? && Decode(frame).Ok? && s.Fits(0)
    requires InLog(s, frame, log) && forall e <- log :: Genuine(mac, e)
    ensures exists e <- log :: e.key == s.MacKey() && e.record == Decode(frame).value && Encode(e.record) == frame
  {
    hide Decode, Header, MacInput, XorSeq, Encode;
    var rec := Decode(frame).value;
    var e :| e in log && e.key == s.MacKey() &&
             MacInput(Header(e.record), e.record.ciphertext) == MacInput(Header(rec), rec.ciphertext);
    OpenMeans(mac, s, want, frame);
    assert Genuine(mac, e);
    SameInputSameFrame(e.record, rec);
    EncodeOfDecode(frame);
    SameRecord(e.record, frame);
  }

  /** A frame is the encoding of one record only. */
  lemma SameRecord(r: OtpDataRecord, frame: seq<byte>)
    requires Decode(frame).Ok? && Encode(r) == frame
    ensures r == Decode(frame).value
  {
    hide Decode, Encode, InBounds;
    DecodeOfEncode(r);
  }

  // ---- one book ----

  function BookBytes(book: nat -> byte, at: nat, l: nat): (s: seq<byte>)
    ensures |s| == l
  {
    seq(l, i requires i >= 0 => book(at + i))
  }

  /** What is still ahead in the stream is the book's, from the byte its base and cursor name. */
  predicate OnBook(s: Stream, book: nat -> byte) {
    forall o :: s.cursor <= o < 4096 ==> s.buf[o] == book(64 * s.baseSegment + o)
  }

  predicate PlaneOnBook(p: Plane, book: nat -> byte) {
    OnBook(p.current, book) && (p.next.Some? ==> OnBook(p.next.value, book))
  }

  predicate PumpOnBook(p: PumpState, book: nat -> byte) {
    p.closed || (PlaneOnBook(p.c2s, book) && PlaneOnBook(p.s2c, book))
  }

  /** The 128 segments of the book from segment `base` on. */
  predicate IsBook(flat: Bundle, base: nat, book: nat -> byte) {
    forall o :: 0 <= o < 8192 ==> flat[o] == book(64 * base + o)
  }

  /** What a source answers is what the book holds there. */
  predicate Supplied(c: Call, book: nat -> byte) {
    match c
    case CallPrefetch(Ok(supply)) => IsBook(supply.flat, supply.base, book)
    case CallControl(_, Ok(supply)) => IsBook(supply.flat, supply.base, book)
    case _ => true
  }

  /** Key and pad of the record are the book's, at the place its header names. */
  predicate FromBook(e: Sealing, book: nat -> byte) {
    var r := e.record;
    var at := 64 * r.baseSegment + r.padOffset;
    && |e.plaintext| == |r.ciphertext| && e.key == BookBytes(book, at, 32)
    && r.ciphertext == XorSeq(e.plaintext, BookBytes(book, at + 32, |e.plaintext|))
  }

  lemma FreshOnBook(id: nat, base: nat, flat: Bundle, d: Direction, book: nat -> byte)
    requires IsBook(flat, base, book)
    ensures OnBook(FreshStream(id, base, flat, d), book)
  {
    forall o | 0 <= o < 4096
      ensures HalfOf(flat, d)[o] == flat[4096 * DirectionIndex(d) + o]
    {
    }
  }

  lemma NewOnBook(role: Role, base: u64, flat: Bundle, book: nat -> byte)
    requires base + 128 <= U64_MAX && IsBook(flat, base, book)
    ensures PumpOnBook(New(role, base, flat), book)
  {
    hide OnBook, IsBook;
    FreshOnBook(0, base, flat, ClientToServer, book);
    FreshOnBook(0, base, flat, ServerToClient, book);
  }

  lemma SpentOnBook(s: Stream, l: nat, book: nat -> byte)
    requires s.Valid() && s.Fits(l) && OnBook(s, book)
    ensures OnBook(s.Spent(l), book)
    ensures s.MacKey() == BookBytes(book, 64 * s.baseSegment + s.cursor, 32)
    ensures s.PadBytes(l) == BookBytes(book, 64 * s.baseSegment + s.cursor + 32, l)
  {
    hide Zeros;
    forall o | s.cursor + 32 + l <= o < 4096
      ensures s.Spent(l).buf[o] == s.buf[o]
    {
    }
  }

  lemma SealedFromBook(mac: Mac, s: Stream, d: Direction, seqNo: u64, plaintext: seq<byte>, book: nat -> byte)
    requires s.Valid() && s.Fits(|plaintext|) && OnBook(s, book)
    ensures var e := Sealing(s.MacKey(), SealedRecord(mac, s, d, seqNo, plaintext), plaintext);
            FromBook(e, book) && Genuine(mac, e) && e.record.direction == d && e.record.recordSeq == seqNo
  {
    hide MacInput, OnBook, XorSeq, CanonicalHeader;
    SpentOnBook(s, |plaintext|, book);
  }

  // ---- one call ----

  /** What a call seals has the pump's direction, number and book, and the number is used up. */
  lemma SealStep(mac: Mac, p: PumpState, c: Call, book: nat -> byte)
    requires Callable(p, c) && PumpOnBook(p, book)
    ensures var p' := After(mac, p, c);
            && p'.role == p.role && p'.sendSeq == p.sendSeq + |SealedBy(mac, p, c)|
            && forall e <- SealedBy(mac, p, c) ::
                 FromBook(e, book) && Genuine(mac, e) && e.record.direction == p.SendDir() && e.record.recordSeq == p.sendSeq
  {
    hide Send, Receive, SealedRecord, OnBook, FromBook, Genuine, Burned, Zeros;
    match c {
      case CallSend(plaintext) =>
        SendMeans(mac, p, plaintext);
        var r := Send(mac, p, plaintext).1;
        if r.Ok? && r.value.Sent? {
          var s := Sender(p).PlaneOf(p.SendDir()).current;
          var l := r.value.consumedPlaintext;
          SealedFromBook(mac, s, p.SendDir(), p.sendSeq, plaintext[..l], book);
        } else {
          SendFails(mac, p, plaintext);
        }
      case CallReceive(frame) => ReceiveKeepsSending(mac, p, frame);
      case _ =>
    }
  }

  lemma SendFails(mac: Mac, p: PumpState, plaintext: seq<byte>)
    requires p.Valid() && !(Send(mac, p, plaintext).1.Ok? && Send(mac, p, plaintext).1.value.Sent?)
    ensures var p' := Send(mac, p, plaintext).0;
            p'.role == p.role && p'.sendSeq == p.sendSeq && (p' == p || p'.closed)
  {
    hide SealedRecord, Burned, Zeros;
  }

  lemma ReceiveKeepsSending(mac: Mac, p: PumpState, frame: seq<byte>)
    requires p.Valid()
    ensures var p' := Receive(mac, p, frame).0; p'.role == p.role && p'.sendSeq == p.sendSeq
  {
    hide Open, Decode, Burned, Zeros;
  }

  lemma CallKeepsBook(mac: Mac, p: PumpState, c: Call, book: nat -> byte)
    requires Callable(p, c) && PumpOnBook(p, book) && Supplied(c, book)
    ensures PumpOnBook(After(mac, p, c), book)
  {
    hide Send, Receive, SealedRecord, OnBook, IsBook, Burned, Zeros, FreshStream;
    match c {
      case CallSend(plaintext) =>
        SendMeans(mac, p, plaintext);
        var r := Send(mac, p, plaintext).1;
        if r.Ok? && r.value.Sent? {
          SpentOnBook(Sender(p).PlaneOf(p.SendDir()).current, r.value.consumedPlaintext, book);
        } else {
          SendFails(mac, p, plaintext);
        }
      case CallReceive(frame) => ReceiveKeepsBook(mac, p, frame, book);
      case CallPrefetch(answer) => AdoptKeepsBook(p, answer, book);
      case CallControl(_, answer) => AdoptKeepsBook(p, answer, book);
      case CallClose =>
    }
  }

  lemma AdoptKeepsBook(p: PumpState, answer: Answer, book: nat -> byte)
    requires PumpOnBook(p, book) && (answer.Ok? ==> IsBook(answer.value.flat, answer.value.base, book))
    ensures answer.Ok? ==> PumpOnBook(Adopted(p, p.nextBundleId, answer.value.base, answer.value.flat), book)
  {
    hide OnBook, IsBook, FreshStream;
    if answer.Ok? {
      FreshOnBook(p.nextBundleId, answer.value.base, answer.value.flat, ClientToServer, book);
      FreshOnBook(p.nextBundleId, answer.value.base, answer.value.flat, ServerToClient, book);
    }
  }

  lemma ReceiveKeepsBook(mac: Mac, p: PumpState, frame: seq<byte>, book: nat -> byte)
    requires p.Valid() && PumpOnBook(p, book)
    ensures PumpOnBook(Receive(mac, p, frame).0, book)
  {
    hide Receive, Expected, Mixed, OnBook, Burned, Zeros, Decode;
    ReceiveMeans(mac, p, frame);
    var r := Receive(mac, p, frame).1;
    if r.Ok? {
      var s := Receiver(p, frame).PlaneOf(p.RecvDir()).current;
      SpentOnBook(s, |r.value.plaintext|, book);
    } else {
      ReceiveFails(mac, p, frame);
    }
  }

  /** The plaintext of a sealing of the log, and its frame, are what is delivered as number `n` of direction `d`. */
  predicate Entry(e: Sealing, d: Direction, n: nat, got: Delivery) {
    && e.record.direction == d && e.record.recordSeq == n
    && Encode(e.record) == got.frame && e.plaintext == got.plaintext
  }

  predicate EntryOf(log: seq<Sealing>, d: Direction, n: nat, got: Delivery) {
    exists e <- log :: Entry(e, d, n, got)
  }

  lemma DeliverStep(mac: Mac, q: PumpState, c: Call, log: seq<Sealing>, book: nat -> byte)
    requires Callable(q, c) && PumpOnBook(q, book) && Authentic(mac, q, c, log)
    requires forall e <- log :: Genuine(mac, e) && FromBook(e, book)
    ensures var q' := After(mac, q, c);
            && q'.role == q.role && q'.recvSeq == q.recvSeq + |DeliveredBy(mac, q, c)|
            && forall got <- DeliveredBy(mac, q, c) :: EntryOf(log, q.RecvDir(), q.recvSeq, got)
  {
    hide Send, Receive, OnBook, FromBook, Genuine, Burned, Zeros, EntryOf;
    match c {
      case CallSend(plaintext) => SendKeepsReceiving(mac, q, plaintext);
      case CallReceive(frame) =>
        ReceiveCounts(mac, q, frame);
        if Receive(mac, q, frame).1.Ok? {
          DeliveredIsEntry(mac, q, frame, log, book);
        }
      case _ =>
    }
  }

  lemma SendKeepsReceiving(mac: Mac, p: PumpState, plaintext: seq<byte>)
    requires p.Valid()
    ensures var p' := Send(mac, p, plaintext).0; p'.role == p.role && p'.recvSeq == p.recvSeq
  {
    hide SealedRecord, Burned, Zeros;
  }

  lemma ReceiveCounts(mac: Mac, p: PumpState, frame: seq<byte>)
    requires p.Valid()
    ensures var (p', r) := Receive(mac, p, frame);
            p'.role == p.role && p'.recvSeq == p.recvSeq + (if r.Ok? then 1 else 0)
  {
    hide Open, Decode, Burned, Zeros;
  }

  /** What is delivered is the ciphertext mixed with the pad where the pump stands, and the record is the one due. */
  lemma DeliveredText(mac: Mac, q: PumpState, frame: seq<byte>)
    requires q.Valid() && Receive(mac, q, frame).1.Ok?
    ensures var got := Receive(mac, q, frame).1.value.plaintext;
            var t := Receiver(q, frame);
            var s := t.PlaneOf(q.RecvDir()).current;
            && !q.closed && Expected(mac, t, frame)
            && Open(mac, s, Wanted(t), frame).1.Ok?
            && s.Fits(|got|) && |Decode(frame).value.ciphertext| == |got|
            && got == XorSeq(Decode(frame).value.ciphertext, s.PadBytes(|got|))
  {
    hide Receive, Open, Decode, Header, MacInput, XorSeq, Mixed, Burned, Zeros;
    ReceiveMeans(mac, q, frame);
    var t := Receiver(q, frame);
    var s := t.PlaneOf(q.RecvDir()).current;
    OpenMeans(mac, s, Wanted(t), frame);
    var got := Receive(mac, q, frame).1.value.plaintext;
    MixedIsXor(Decode(frame).value.ciphertext, s.PadBytes(|got|), got);
  }

  lemma DeliveredIsEntry(mac: Mac, q: PumpState, frame: seq<byte>, log: seq<Sealing>, book: nat -> byte)
    requires q.Valid() && PumpOnBook(q, book) && Authentic(mac, q, CallReceive(frame), log)
    requires forall e <- log :: Genuine(mac, e) && FromBook(e, book)
    requires Receive(mac, q, frame).1.Ok?
    ensures EntryOf(log, q.RecvDir(), q.recvSeq, Delivery(frame, Receive(mac, q, frame).1.value.plaintext))
  {
    hide Receive, Open, OnBook, Genuine, Encode, Header, MacInput, Decode, Burned, Zeros, XorSeq, BookBytes, InLog;
    DeliveredText(mac, q, frame);
    var t := Receiver(q, frame);
    var s := t.PlaneOf(q.RecvDir()).current;
    var rec := Decode(frame).value;
    var got := Receive(mac, q, frame).1.value.plaintext;
    OpenedIsSealed(mac, s, Wanted(t), frame, log);
    var e :| e in log && e.record == rec && Encode(e.record) == frame;
    SpentOnBook(s, |got|, book);
    XorSeqUndo(e.plaintext, s.PadBytes(|got|));
    assert Entry(e, q.RecvDir(), q.recvSeq, Delivery(frame, got));
  }

  lemma MixedIsXor(data: seq<byte>, pad: seq<byte>, out: seq<byte>)
    requires Mixed(data, pad, out)
    ensures out == XorSeq(data, pad)
  {
    hide Bit, Xor;
    XorSeqMixes(data, pad);
    forall k | 0 <= k < |data|
      ensures out[k] == XorSeq(data, pad)[k]
    {
      Pow2Of8();
      SameBitsSameNumber(8, out[k], XorSeq(data, pad)[k]);
    }
  }

  // ---- whole runs ----

  lemma {:induction false} SealLogInOrder(mac: Mac, p: PumpState, calls: seq<Call>, book: nat -> byte)
    requires CallsPossible(mac, p, calls) && PumpOnBook(p, book) && forall c <- calls :: Supplied(c, book)
    ensures forall i :: 0 <= i < |SealLog(mac, p, calls)| ==>
              var e := SealLog(mac, p, calls)[i];
              && FromBook(e, book) && Genuine(mac, e)
              && e.record.direction == p.SendDir() && e.record.recordSeq == p.sendSeq + i
    decreases |calls|
  {
    hide After, SealedBy, FromBook, Genuine, PumpOnBook, Supplied;
    if |calls| > 0 {
      SealStep(mac, p, calls[0], book);
      CallKeepsBook(mac, p, calls[0], book);
      SealLogInOrder(mac, After(mac, p, calls[0]), calls[1..], book);
      OneSealing(mac, p, calls[0]);
    }
  }

  lemma OneSealing(mac: Mac, p: PumpState, c: Call)
    requires Callable(p, c)
    ensures |SealedBy(mac, p, c)| <= 1
  {
    hide Send;
  }

  lemma OneDelivery(mac: Mac, q: PumpState, c: Call)
    requires Callable(q, c)
    ensures |DeliveredBy(mac, q, c)| <= 1
  {
    hide Receive;
  }

  lemma {:induction false} DeliveriesInOrder(mac: Mac, q: PumpState, calls: seq<Call>, log: seq<Sealing>, book: nat -> byte)
    requires CallsPossible(mac, q, calls) && PumpOnBook(q, book) && Unforged(mac, q, calls, log)
    requires forall c <- calls :: Supplied(c, book)
    requires forall e <- log :: Genuine(mac, e) && FromBook(e, book)
    ensures forall i :: 0 <= i < |Deliveries(mac, q, calls)| ==>
              EntryOf(log, q.RecvDir(), q.recvSeq + i, Deliveries(mac, q, calls)[i])
    decreases |calls|
  {
    hide After, DeliveredBy, FromBook, Genuine, PumpOnBook, Supplied, EntryOf, Authentic;
    if |calls| > 0 {
      DeliverStep(mac, q, calls[0], log, book);
      CallKeepsBook(mac, q, calls[0], book);
      DeliveriesInOrder(mac, After(mac, q, calls[0]), calls[1..], log, book);
      OneDelivery(mac, q, calls[0]);
    }
  }

  /**
   * Two pumps of opposite roles whose bundles are the book's, such as new ones, each driven in any way and fed anything at all: if
   * nothing the second is fed is forged, given all that either of them sealed, then what it delivers is a prefix of
   * what the first sent: frame by frame the same bytes, and plaintext by plaintext.
   */
  lemma DeliveredIsPrefixOfSent(mac: Mac, p: PumpState, q: PumpState, sends: seq<Call>, feeds: seq<Call>, book: nat -> byte)
    requires CallsPossible(mac, p, sends) && CallsPossible(mac, q, feeds) && PumpOnBook(p, book) && PumpOnBook(q, book)
    requires (forall c <- sends :: Supplied(c, book)) && (forall c <- feeds :: Supplied(c, book))
    requires p.role != q.role && p.sendSeq == q.recvSeq
    requires Unforged(mac, q, feeds, SealLog(mac, p, sends) + SealLog(mac, q, feeds))
    ensures var sent, got := SealLog(mac, p, sends), Deliveries(mac, q, feeds);
            && |got| <= |sent|
            && forall i :: 0 <= i < |got| ==> got[i] == Delivery(Encode(sent[i].record), sent[i].plaintext)
  {
    hide CallsPossible, PumpOnBook, Supplied, Unforged, SealLog, Deliveries, FromBook, Genuine, Encode;
    var sent, own, got := SealLog(mac, p, sends), SealLog(mac, q, feeds), Deliveries(mac, q, feeds);
    SealLogInOrder(mac, p, sends, book);
    SealLogInOrder(mac, q, feeds, book);
    DeliveriesInOrder(mac, q, feeds, sent + own, book);
    forall i | 0 <= i < |got|
      ensures i < |sent| && got[i] == Delivery(Encode(sent[i].record), sent[i].plaintext)
    {
      OnlyEntry(sent, own, q.RecvDir(), q.recvSeq, i, got[i]);
    }
    if |got| > 0 {
      var last := got[|got| - 1];
    }
  }

  /** Numbers tell the entries of one direction apart, and the direction tells them from the other's. */
  lemma OnlyEntry(sent: seq<Sealing>, own: seq<Sealing>, d: Direction, first: nat, i: nat, got: Delivery)
    requires forall k :: 0 <= k < |sent| ==> sent[k].record.direction == d && sent[k].record.recordSeq == first + k
    requires forall k :: 0 <= k < |own| ==> own[k].record.direction != d
    requires EntryOf(sent + own, d, first + i, got)
    ensures i < |sent| && got == Delivery(Encode(sent[i].record), sent[i].plaintext)
  {
    hide Encode;
    var e :| e in sent + own && Entry(e, d, first + i, got);
    assert e in sent;
    var j :| 0 <= j < |sent| && sent[j] == e;
  }

  // ---- the assumption holds of every channel that makes no frames of its own ----

  /** Whatever is replayed, reordered, dropped or reflected, a frame that was sealed from the book is not forged. */
  lemma SealedIsAuthentic(mac: Mac, q: PumpState, e: Sealing, log: seq<Sealing>, book: nat -> byte)
    requires q.Valid() && PumpOnBook(q, book) && e in log && FromBook(e, book)
    ensures Authentic(mac, q, CallReceive(Encode(e.record)), log)
  {
    hide Encode, Decode, OnBook, XorSeq, BookBytes, Header, MacInput, Burned, Zeros;
    var frame := Encode(e.record);
    if !q.closed && Expected(mac, Receiver(q, frame), frame) {
      var s := Receiver(q, frame).PlaneOf(q.RecvDir()).current;
      SameRecord(e.record, frame);
      SpentOnBook(s, 0, book);
    }
  }

  lemma {:induction false} ChannelIsUnforged(mac: Mac, q: PumpState, feeds: seq<Call>, log: seq<Sealing>, book: nat -> byte)
    requires CallsPossible(mac, q, feeds) && PumpOnBook(q, book)
    requires forall c <- feeds :: Supplied(c, book) && (c.CallReceive? ==> exists e <- log :: Encode(e.record) == c.frame)
    requires forall e <- log :: FromBook(e, book)
    ensures Unforged(mac, q, feeds, log)
    decreases |feeds|
  {
    hide After, PumpOnBook, FromBook, Encode, Authentic, Supplied;
    if |feeds| > 0 {
      var c := feeds[0];
      CallKeepsBook(mac, q, c, book);
      if c.CallReceive? {
        var e :| e in log && Encode(e.record) == c.frame;
        SealedIsAuthentic(mac, q, e, log, book);
      } else {
        assert Authentic(mac, q, c, log) by { OnlyFramesForge(mac, q, c, log); }
      }
      ChannelIsUnforged(mac, After(mac, q, c), feeds[1..], log, book);
    }
  }

  lemma OnlyFramesForge(mac: Mac, q: PumpState, c: Call, log: seq<Sealing>)
    requires q.Valid() && !c.CallReceive?
    ensures Authentic(mac, q, c, log)
  {
  }
}
