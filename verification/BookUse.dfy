/** Where in the book the pad of a pump comes from, and that no byte of the book serves twice. */
module BookUse {
  import opened Bytes
  import opened Types
  import opened Wire
  import opened Pad
  import opened Record
  import opened PumpSpec
  import opened PadUse
  import opened Book

  /** `table[k]` is the segment at which bundle `k` starts; a direction's half starts 64 segments after the other's. */
  predicate Placed(s: Stream, d: Direction, table: seq<nat>) {
    s.bundleId < |table| && s.baseSegment == table[s.bundleId] + 64 * DirectionIndex(d)
  }

  predicate PlanePlaced(p: Plane, d: Direction, table: seq<nat>) {
    Placed(p.current, d, table) && (p.next.Some? ==> Placed(p.next.value, d, table))
  }

  /** Every stream an open pump holds comes from the bundle its id names. */
  predicate PumpPlaced(p: PumpState, table: seq<nat>) {
    p.closed ||
    (|table| == p.nextBundleId && PlanePlaced(p.c2s, ClientToServer, table) && PlanePlaced(p.s2c, ServerToClient, table))
  }

  predicate UsePlaced(u: Use, table: seq<nat>) {
    u.bundleId < |table| && u.base == table[u.bundleId] + 64 * DirectionIndex(u.direction)
  }

  /** The segment at which the bundle a call takes from its source starts. */
  function Adopts(p: PumpState, c: Call): seq<nat> {
    match c
    case CallPrefetch(answer) => if Prefetches(p) && answer.Ok? then [answer.value.base] else []
    case CallControl(msg, answer) => if AsksSource(p, msg) && answer.Ok? then [answer.value.base] else []
    case _ => []
  }

  /** The starts of all bundles a sequence of calls takes, after those in `table`. */
  function Table(mac: Mac, p: PumpState, calls: seq<Call>, table: seq<nat>): seq<nat>
    requires CallsPossible(mac, p, calls)
    decreases |calls|
  {
    if |calls| == 0 then table
    else Table(mac, After(mac, p, calls[0]), calls[1..], table + Adopts(p, calls[0]))
  }

  /** Bundles of 128 segments that do not overlap, in the order of the book. */
  predicate Spaced(table: seq<nat>) {
    forall k, k' :: 0 <= k < k' < |table| ==> table[k] + 128 <= table[k']
  }

  lemma TableGrows(p: PumpState, table: seq<nat>, more: seq<nat>)
    requires PumpPlaced(p, table)
    ensures p.closed || (PlanePlaced(p.c2s, ClientToServer, table + more) && PlanePlaced(p.s2c, ServerToClient, table + more))
  {
  }

  lemma SendKeepsPlaced(mac: Mac, p: PumpState, plaintext: seq<byte>, table: seq<nat>)
    requires p.Valid() && PumpPlaced(p, table)
    ensures PumpPlaced(Send(mac, p, plaintext).0, table)
    ensures var u := UsedBy(mac, p, CallSend(plaintext)); u.Some? ==> UsePlaced(u.value, table)
  {
    hide SealedRecord, Burned, Zeros;
  }

  lemma OpenStays(mac: Mac, s: Stream, want: OpenExpectation, frame: seq<byte>)
    requires s.Valid()
    ensures var s' := Open(mac, s, want, frame).0; s'.bundleId == s.bundleId && s'.baseSegment == s.baseSegment
    ensures var u := OpenUse(mac, s, want, frame);
            u.Some? ==> u.value.direction == want.direction && u.value.bundleId == s.bundleId && u.value.base == s.baseSegment
  {
    hide Decode, Header, MacInput, XorSeq, Burned;
  }

  lemma SeatedPlaced(p: PumpState, frame: seq<byte>, table: seq<nat>)
    requires p.Valid() && PumpPlaced(p, table) && Seated(p, frame).Some?
    ensures PumpPlaced(Seated(p, frame).value, table)
  {
    hide Decode;
  }

  lemma ReceiveHereKeepsPlaced(mac: Mac, q: PumpState, frame: seq<byte>, table: seq<nat>)
    requires q.Valid() && !q.closed && PumpPlaced(q, table)
    ensures PumpPlaced(ReceiveHere(mac, q, frame).0, table)
    ensures var u := OpenUse(mac, q.PlaneOf(q.RecvDir()).current, Wanted(q), frame);
            u.Some? ==> UsePlaced(u.value, table)
  {
    hide Open, OpenUse, Burned, Zeros;
    OpenStays(mac, q.PlaneOf(q.RecvDir()).current, Wanted(q), frame);
  }

  lemma ReceiveKeepsPlaced(mac: Mac, p: PumpState, frame: seq<byte>, table: seq<nat>)
    requires p.Valid() && PumpPlaced(p, table)
    ensures PumpPlaced(Receive(mac, p, frame).0, table)
    ensures var u := UsedBy(mac, p, CallReceive(frame)); u.Some? ==> UsePlaced(u.value, table)
  {
    hide Receive, ReceiveHere, OpenUse, Seated, Burned, Zeros;
    ReceiveIsSeated(mac, p, frame);
    if Seated(p, frame).Some? {
      SeatedKeeps(p, frame);
      SeatedPlaced(p, frame, table);
      ReceiveHereKeepsPlaced(mac, Seated(p, frame).value, frame, table);
    }
  }

  lemma CallKeepsPlaced(mac: Mac, p: PumpState, c: Call, table: seq<nat>)
    requires Callable(p, c) && PumpPlaced(p, table)
    ensures PumpPlaced(After(mac, p, c), table + Adopts(p, c))
    ensures var u := UsedBy(mac, p, c); u.Some? ==> UsePlaced(u.value, table)
  {
    hide Send, Receive, Burned, Zeros;
    assert table + [] == table;
    match c {
      case CallSend(plaintext) => SendKeepsPlaced(mac, p, plaintext, table);
      case CallReceive(frame) => ReceiveKeepsPlaced(mac, p, frame, table);
      case CallPrefetch(answer) => TableGrows(p, table, Adopts(p, c));
      case CallControl(msg, answer) => TableGrows(p, table, Adopts(p, c));
      case CallClose =>
    }
  }

  lemma {:induction false} UsesPlaced(mac: Mac, p: PumpState, calls: seq<Call>, table: seq<nat>)
    requires CallsPossible(mac, p, calls) && PumpPlaced(p, table)
    ensures table <= Table(mac, p, calls, table)
    ensures forall u <- Uses(mac, p, calls) :: UsePlaced(u, Table(mac, p, calls, table))
    decreases |calls|
  {
    hide After, UsedBy, Adopts, PumpPlaced;
    if |calls| > 0 {
      CallKeepsPlaced(mac, p, calls[0], table);
      UsesPlaced(mac, After(mac, p, calls[0]), calls[1..], table + Adopts(p, calls[0]));
    }
  }

  /**
   * From a new pump, over any sequence of calls in either role: as long as its sources never give out overlapping
   * bundles, no byte of the book is used for a second key or exclusive-or, in either direction.
   */
  lemma NoBookByteUsedTwice(mac: Mac, role: Role, base: u64, flat: Bundle, calls: seq<Call>, i: nat, j: nat)
    requires base + 128 <= U64_MAX && CallsPossible(mac, New(role, base, flat), calls)
    requires i < j < |Uses(mac, New(role, base, flat), calls)|
    requires Spaced(Table(mac, New(role, base, flat), calls, [base]))
    ensures var uses := Uses(mac, New(role, base, flat), calls);
            uses[i].End() <= uses[j].First() || uses[j].End() <= uses[i].First()
  {
    hide Uses, CallsPossible, Table, Apart, UsePlaced, Ahead;
    var p := New(role, base, flat);
    NewIsOrdered(role, base, flat);
    UsesPlaced(mac, p, calls, [base]);
    UsesAhead(mac, p, calls);
    NoPadByteUsedTwice(mac, p, calls, i, j);
    var uses := Uses(mac, p, calls);
    assert uses[i] in uses && uses[j] in uses;
    ApartInBook(uses[i], uses[j], p, Table(mac, p, calls, [base]));
  }

  lemma ApartInBook(u: Use, v: Use, p: PumpState, table: seq<nat>)
    requires UsePlaced(u, table) && UsePlaced(v, table) && Spaced(table)
    requires Apart(u, v) && Ahead(u, p) && Ahead(v, p)
    ensures u.End() <= v.First() || v.End() <= u.First()
  {
    if u.bundleId < v.bundleId {
      assert table[u.bundleId] + 128 <= table[v.bundleId];
    } else if v.bundleId < u.bundleId {
      assert table[v.bundleId] + 128 <= table[u.bundleId];
    }
  }

  /** The positions are those of the bytes cut: offset `o` of a fresh stream holds that byte of the book. */
  lemma StreamIsBook(book: seq<Bytes64>, id: nat, base: nat, flat: Bundle, d: Direction, o: nat)
    requires base + 128 <= |book| && flat == Flat(book[base..base + 128]) && o < PAD_HALF
    ensures var s := FreshStream(id, base, flat, d);
            64 * s.baseSegment + o < 64 * |book| && s.buf[o] == Flat(book)[64 * s.baseSegment + o]
  {
    hide Flat;
    FlatSlice(book, base, base + 128);
    HalfByte(flat, d, o);
    SliceByte(Flat(book), 64 * base, 64 * (base + 128), PAD_HALF * DirectionIndex(d) + o);
  }

  lemma HalfByte(flat: Bundle, d: Direction, o: nat)
    requires o < PAD_HALF
    ensures HalfOf(flat, d)[o] == flat[PAD_HALF * DirectionIndex(d) + o]
  {
    HalvesAreDisjoint(flat);
  }

  lemma SliceByte(s: seq<byte>, i: nat, j: nat, k: nat)
    requires i + k < j <= |s|
    ensures s[i..j][k] == s[i + k]
  {
  }
}
