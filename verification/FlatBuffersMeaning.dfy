/** The FlatBuffers layout said from the side of the bytes: which tables and fields the reader
    finds, and what frames and strings look like. */
module FlatBuffersMeaning {
  import opened Options
  import opened Wire
  import opened Protobuf
  import opened FlatBuffers
  import opened Sequences

  /** The first four bytes point to the table, the table points back to its vtable by a signed
      distance, the vtable starts with both lengths, and all of it lies inside the body. */
  predicate TableAt(body: bytes, t: Table) {
    var back := t.root - t.vtable;
    && |body| >= 8 && t.root < 0x1_0000_0000 && -0x8000_0000 <= back < 0x8000_0000
    && t.vtableLen < 0x1_0000 && t.tableLen < 0x1_0000
    && Stands(body, 0, LE(t.root, 4)) && Stands(body, t.root, LE(if back < 0 then back + 0x1_0000_0000 else back, 4))
    && Stands(body, t.vtable, LE(t.vtableLen, 2)) && Stands(body, t.vtable + 2, LE(t.tableLen, 2))
    && t.vtable + t.vtableLen <= |body| && t.root + t.tableLen <= |body|
  }

  /** The vtable has room for the entry of this field, the entry holds its distance from the table,
      which is not zero, and the field lies inside the table and the body. */
  predicate FieldIn(body: bytes, t: Table, idx: nat, size: nat, pos: nat) {
    var entry := t.vtable + 4 + 2 * idx;
    && entry + 2 <= t.vtable + t.vtableLen && t.root < pos < t.root + 0x1_0000
    && Stands(body, entry, LE(pos - t.root, 2))
    && pos + size <= t.root + t.tableLen && pos + size <= |body|
  }

  lemma {:induction false} FromLEBack(b: bytes)
    ensures LE(FromLE(b), |b|) == b
    decreases |b|
  {
    if b != [] {
      FromLEBack(b[1..]);
      var v := FromLE(b[1..]);
      assert FromLE(b) % 256 == b[0] && FromLE(b) / 256 == v;
      assert b == [b[0]] + b[1..];
    }
  }

  /** Reading a number and finding its bytes are the same. */
  lemma ReadIffStands(body: bytes, at: nat, v: nat, width: nat)
    requires at + width <= |body| && v < P256(width)
    ensures Read(body, at, width) == v <==> Stands(body, at, LE(v, width))
  {
    hide LE, FromLE, P256;
    FromLEBack(body[at..at + width]);
    LERoundTrip(v, width);
  }

  lemma ReadBelow(body: bytes, at: nat, width: nat)
    requires at + width <= |body|
    ensures Read(body, at, width) < P256(width)
  {
    hide FromLE, P256;
  }

  lemma Powers()
    ensures P256(2) == 0x1_0000 && P256(4) == 0x1_0000_0000
  {
    assert P256(3) == 256 * P256(2);
  }

  /** The reader opens a table exactly where one is laid out. */
  lemma OpenTableIff(body: bytes, t: Table)
    ensures OpenTable(body) == Ok(t) <==> TableAt(body, t)
  {
    hide Read, LE, P256, FromLE;
    Powers();
    if |body| >= 8 {
      ReadBelow(body, 0, 4);
      var root := Read(body, 0, 4);
      if t.root < 0x1_0000_0000 {
        ReadIffStands(body, 0, t.root, 4);
      }
      if root + 4 <= |body| {
        ReadBelow(body, root, 4);
        DistanceIff(body, root, t);
        LengthsIff(body, t);
      }
    }
  }

  lemma DistanceIff(body: bytes, root: nat, t: Table)
    requires root + 4 <= |body| && root < 0x1_0000_0000
    ensures
      var back := root - t.vtable;
      && (root - Signed(Read(body, root, 4), 4) == t.vtable <==>
          && -0x8000_0000 <= back < 0x8000_0000
          && Stands(body, root, LE(if back < 0 then back + 0x1_0000_0000 else back, 4)))
  {
    hide Read, LE, P256, FromLE;
    Powers();
    ReadBelow(body, root, 4);
    var back := root - t.vtable;
    if -0x8000_0000 <= back < 0x8000_0000 {
      ReadIffStands(body, root, if back < 0 then back + 0x1_0000_0000 else back, 4);
    }
  }

  lemma LengthsIff(body: bytes, t: Table)
    ensures t.vtable + 4 <= |body| ==>
      && (Read(body, t.vtable, 2) == t.vtableLen <==>
          t.vtableLen < 0x1_0000 && Stands(body, t.vtable, LE(t.vtableLen, 2)))
      && (Read(body, t.vtable + 2, 2) == t.tableLen <==>
          t.tableLen < 0x1_0000 && Stands(body, t.vtable + 2, LE(t.tableLen, 2)))
  {
    hide Read, LE, P256, FromLE;
    Powers();
    if t.vtable + 4 <= |body| {
      ReadBelow(body, t.vtable, 2);
      ReadBelow(body, t.vtable + 2, 2);
      if t.vtableLen < 0x1_0000 {
        ReadIffStands(body, t.vtable, t.vtableLen, 2);
      }
      if t.tableLen < 0x1_0000 {
        ReadIffStands(body, t.vtable + 2, t.tableLen, 2);
      }
    }
  }

  /** The reader finds a field exactly where one is laid out. */
  lemma FieldAtIff(body: bytes, t: Table, idx: nat, size: nat, pos: nat)
    requires t.vtable + t.vtableLen <= |body|
    ensures FieldAt(body, t, idx, size) == Ok(pos) <==> FieldIn(body, t, idx, size, pos)
  {
    hide Read, LE, P256, FromLE;
    Powers();
    var entry := t.vtable + 4 + 2 * idx;
    if entry + 2 <= t.vtable + t.vtableLen {
      ReadBelow(body, entry, 2);
      if t.root < pos < t.root + 0x1_0000 {
        ReadIffStands(body, entry, pos - t.root, 2);
      }
    }
  }

  /** Which error it is when no table opens, or no field is found. */
  lemma TableFaults(body: bytes)
    ensures OpenTable(body) == Error(TooShort) <==> |body| < 8
    ensures OpenTable(body).Error? ==> OpenTable(body).fault in {TooShort, OutOfBounds}
  {
    hide Read;
  }

  lemma FieldFaults(body: bytes, t: Table, idx: nat, size: nat)
    requires t.vtable + t.vtableLen <= |body|
    ensures
      var entry, r := t.vtable + 4 + 2 * idx, FieldAt(body, t, idx, size);
      && (r == Error(MissingField) <==> entry + 2 > t.vtable + t.vtableLen || Stands(body, entry, [0, 0]))
      && (r.Error? ==> r.fault in {MissingField, OutOfBounds})
  {
    hide Read, P256, FromLE;
    Powers();
    var entry := t.vtable + 4 + 2 * idx;
    if entry + 2 <= t.vtable + t.vtableLen {
      assert LE(0, 2) == [0, 0];
      ReadIffStands(body, entry, 0, 2);
    }
  }

  // ---- what the tables hold ----

  /** A text field points forward to a length and as many bytes. */
  predicate TextBytes(body: bytes, pos: nat, rel: nat, n: nat) {
    && rel < 0x1_0000_0000 && n < 0x1_0000_0000
    && Stands(body, pos, LE(rel, 4)) && Stands(body, pos + rel, LE(n, 4)) && pos + rel + 4 + n <= |body|
  }

  predicate TextStands<F(!new)>(p: Prims<F>, body: bytes, pos: nat, rel: nat, n: nat, s: string) {
    TextBytes(body, pos, rel, n) && p.decode(body[pos + rel + 4..pos + rel + 4 + n]) == Some(s)
  }

  ghost predicate HoldsText<F(!new)>(p: Prims<F>, body: bytes, t: Table, idx: nat, s: string) {
    exists pos: nat, rel: nat, n: nat :: FieldIn(body, t, idx, 4, pos) && TextStands(p, body, pos, rel, n, s)
  }

  ghost predicate HoldsFloat<F(!new)>(p: Prims<F>, body: bytes, t: Table, idx: nat, x: F) {
    exists pos: nat :: FieldIn(body, t, idx, 8, pos) && x == p.unpack(body[pos..pos + 8])
  }

  /** Eight bytes in two's complement. */
  ghost predicate HoldsLong(body: bytes, t: Table, idx: nat, x: int) {
    -TWO63 <= x < TWO63
    && exists pos: nat :: FieldIn(body, t, idx, 8, pos) && Stands(body, pos, LE(if x < 0 then x + TWO64 else x, 8))
  }

  ghost predicate HoldsSide(body: bytes, t: Table, idx: nat, side: Side) {
    exists pos: nat :: FieldIn(body, t, idx, 1, pos) && body[pos] == if side == Buy then 1 else 2
  }

  lemma LE4(v: nat)
    ensures |LE(v, 4)| == 4
  {
  }

  lemma TextAtIff<F(!new)>(p: Prims<F>, body: bytes, t: Table, idx: nat, s: string)
    requires t.vtable + t.vtableLen <= |body|
    ensures TextAt(p, body, t, idx) == Ok(s) <==> HoldsText(p, body, t, idx, s)
  {
    hide Read, LE, P256, FromLE, FieldIn, TextStands;
    var r := FieldAt(body, t, idx, 4);
    if r.Ok? {
      FieldAtIff(body, t, idx, 4, r.value);
      forall pos | FieldIn(body, t, idx, 4, pos)
        ensures pos == r.value
      {
        FieldAtIff(body, t, idx, 4, pos);
      }
      TextStandsIff(p, body, t, idx, r.value, s);
    } else {
      forall pos: nat ensures !FieldIn(body, t, idx, 4, pos) {
        FieldAtIff(body, t, idx, 4, pos);
      }
    }
  }

  lemma TextStandsIff<F(!new)>(p: Prims<F>, body: bytes, t: Table, idx: nat, pos: nat, s: string)
    requires t.vtable + t.vtableLen <= |body| && FieldAt(body, t, idx, 4) == Ok(pos)
    ensures TextAt(p, body, t, idx) == Ok(s) <==> exists rel, n :: TextStands(p, body, pos, rel, n, s)
  {
    hide Read, LE, P256, FromLE, FieldAt;
    Powers();
    ReadBelow(body, pos, 4);
    var rel := Read(body, pos, 4);
    ReadIffStands(body, pos, rel, 4);
    if pos + rel + 4 <= |body| {
      ReadBelow(body, pos + rel, 4);
      ReadIffStands(body, pos + rel, Read(body, pos + rel, 4), 4);
      if TextAt(p, body, t, idx) == Ok(s) {
        assert TextStands(p, body, pos, rel, Read(body, pos + rel, 4), s);
      }
    }
    forall rel', n | TextStands(p, body, pos, rel', n, s)
      ensures TextAt(p, body, t, idx) == Ok(s)
    {
      LE4(n);
      ReadIffStands(body, pos, rel', 4);
      ReadIffStands(body, pos + rel', n, 4);
    }
  }

  /** A text is unreadable if its bytes are there and do not decode, and out of bounds if they are not. */
  lemma TextFaults<F(!new)>(p: Prims<F>, body: bytes, t: Table, idx: nat)
    requires t.vtable + t.vtableLen <= |body|
    ensures
      var f, r := FieldAt(body, t, idx, 4), TextAt(p, body, t, idx);
      && (f.Error? ==> r == Error(f.fault))
      && (f.Ok? && r.Error? ==>
          r.fault == if exists rel, n :: TextBytes(body, f.value, rel, n) then BadText else OutOfBounds)
  {
    hide Read, LE, P256, FromLE, FieldAt;
    var f := FieldAt(body, t, idx, 4);
    if f.Ok? {
      Powers();
      var pos := f.value;
      ReadBelow(body, pos, 4);
      var rel := Read(body, pos, 4);
      ReadIffStands(body, pos, rel, 4);
      if pos + rel + 4 <= |body| {
        ReadBelow(body, pos + rel, 4);
        ReadIffStands(body, pos + rel, Read(body, pos + rel, 4), 4);
        if pos + rel + 4 + Read(body, pos + rel, 4) <= |body| {
          assert TextBytes(body, pos, rel, Read(body, pos + rel, 4));
        }
      }
      forall rel', n | TextBytes(body, pos, rel', n)
        ensures rel' == rel && pos + rel + 4 <= |body| && n == Read(body, pos + rel, 4)
      {
        LE4(n);
        ReadIffStands(body, pos, rel', 4);
        ReadIffStands(body, pos + rel', n, 4);
      }
    }
  }

  lemma FloatAtIff<F(!new)>(p: Prims<F>, body: bytes, t: Table, idx: nat, x: F)
    requires t.vtable + t.vtableLen <= |body|
    ensures FloatAt(p, body, t, idx) == Ok(x) <==> HoldsFloat(p, body, t, idx, x)
  {
    hide FieldAt, FieldIn;
    forall pos: nat ensures FieldAt(body, t, idx, 8) == Ok(pos) <==> FieldIn(body, t, idx, 8, pos) {
      FieldAtIff(body, t, idx, 8, pos);
    }
  }

  lemma LongAtIff(body: bytes, t: Table, idx: nat, x: int)
    requires t.vtable + t.vtableLen <= |body|
    ensures LongAt(body, t, idx) == Ok(x) <==> HoldsLong(body, t, idx, x)
  {
    hide Read, LE, P256, FromLE, FieldAt, FieldIn;
    Widths();
    forall pos: nat ensures FieldAt(body, t, idx, 8) == Ok(pos) <==> FieldIn(body, t, idx, 8, pos) {
      FieldAtIff(body, t, idx, 8, pos);
    }
    var r := FieldAt(body, t, idx, 8);
    if r.Ok? {
      ReadBelow(body, r.value, 8);
      if -TWO63 <= x < TWO63 {
        ReadIffStands(body, r.value, if x < 0 then x + TWO64 else x, 8);
      }
    }
  }

  /** The six fields of a trade by their numbers. */
  ghost predicate TradeIn<F(!new)>(p: Prims<F>, body: bytes, t: Table, r: Trade<F>) {
    && HoldsText(p, body, t, 0, r.symbol) && HoldsFloat(p, body, t, 1, r.price) && HoldsFloat(p, body, t, 2, r.size)
    && HoldsLong(body, t, 3, r.timestamp) && HoldsText(p, body, t, 4, r.tradeId) && HoldsSide(body, t, 5, r.side)
  }

  ghost predicate QuoteIn<F(!new)>(p: Prims<F>, body: bytes, t: Table, r: Quote<F>) {
    && HoldsText(p, body, t, 0, r.symbol)
    && HoldsFloat(p, body, t, 1, r.bidPrice) && HoldsFloat(p, body, t, 2, r.bidSize)
    && HoldsFloat(p, body, t, 3, r.askPrice) && HoldsFloat(p, body, t, 4, r.askSize)
    && HoldsLong(body, t, 5, r.timestamp)
  }

  lemma OpensOnly(body: bytes)
    ensures forall t :: TableAt(body, t) <==> OpenTable(body) == Ok(t)
  {
    forall t ensures TableAt(body, t) <==> OpenTable(body) == Ok(t) {
      OpenTableIff(body, t);
    }
  }

  /** A body is read as a trade exactly if a table with these six fields stands in it. */
  lemma TradeTableIff<F(!new)>(p: Prims<F>, body: bytes, r: Trade<F>)
    ensures ReadTradeTable(p, body) == Ok(r) <==> exists t :: TableAt(body, t) && TradeIn(p, body, t, r)
  {
    hide OpenTable, TextAt, FloatAt, LongAt, FieldAt, FieldIn, TableAt, HoldsText, HoldsFloat, HoldsLong;
    OpensOnly(body);
    var o := OpenTable(body);
    if o.Ok? {
      TradeFields(p, body, o.value, r);
      assert TableAt(body, o.value);
    }
  }

  lemma TradeFields<F(!new)>(p: Prims<F>, body: bytes, t: Table, r: Trade<F>)
    requires OpenTable(body) == Ok(t)
    ensures ReadTradeTable(p, body) == Ok(r) <==> TradeIn(p, body, t, r)
  {
    hide OpenTable, TextAt, FloatAt, LongAt, FieldAt, FieldIn, HoldsText, HoldsFloat, HoldsLong;
    TextAtIff(p, body, t, 0, r.symbol);
    FloatAtIff(p, body, t, 1, r.price);
    FloatAtIff(p, body, t, 2, r.size);
    LongAtIff(body, t, 3, r.timestamp);
    TextAtIff(p, body, t, 4, r.tradeId);
    forall pos: nat ensures FieldAt(body, t, 5, 1) == Ok(pos) <==> FieldIn(body, t, 5, 1, pos) {
      FieldAtIff(body, t, 5, 1, pos);
    }
  }

  /** The side is the last to be refused: when the other fields are there and its byte is not 1 or 2. */
  lemma SideFault<F(!new)>(p: Prims<F>, body: bytes, t: Table)
    requires OpenTable(body) == Ok(t)
    requires TextAt(p, body, t, 0).Ok? && FloatAt(p, body, t, 1).Ok? && FloatAt(p, body, t, 2).Ok?
    requires LongAt(body, t, 3).Ok? && TextAt(p, body, t, 4).Ok?
    ensures ReadTradeTable(p, body) == Error(BadSide) <==>
      exists pos: nat :: FieldIn(body, t, 5, 1, pos) && body[pos] != 1 && body[pos] != 2
  {
    hide OpenTable, TextAt, FloatAt, LongAt, FieldAt, FieldIn;
    forall pos: nat ensures FieldAt(body, t, 5, 1) == Ok(pos) <==> FieldIn(body, t, 5, 1, pos) {
      FieldAtIff(body, t, 5, 1, pos);
    }
    FieldFaults(body, t, 5, 1);
  }

  /** A body is read as a quote exactly if a table with these six fields stands in it. */
  lemma QuoteTableIff<F(!new)>(p: Prims<F>, body: bytes, r: Quote<F>)
    ensures ReadQuoteTable(p, body) == Ok(r) <==> exists t :: TableAt(body, t) && QuoteIn(p, body, t, r)
  {
    hide OpenTable, TextAt, FloatAt, LongAt, FieldAt, FieldIn, TableAt, HoldsText, HoldsFloat, HoldsLong;
    OpensOnly(body);
    var o := OpenTable(body);
    if o.Ok? {
      QuoteFields(p, body, o.value, r);
      assert TableAt(body, o.value);
    }
  }

  lemma QuoteFields<F(!new)>(p: Prims<F>, body: bytes, t: Table, r: Quote<F>)
    requires OpenTable(body) == Ok(t)
    ensures ReadQuoteTable(p, body) == Ok(r) <==> QuoteIn(p, body, t, r)
  {
    hide OpenTable, TextAt, FloatAt, LongAt, FieldAt, FieldIn, HoldsText, HoldsFloat, HoldsLong;
    TextAtIff(p, body, t, 0, r.symbol);
    FloatAtIff(p, body, t, 1, r.bidPrice);
    FloatAtIff(p, body, t, 2, r.bidSize);
    FloatAtIff(p, body, t, 3, r.askPrice);
    FloatAtIff(p, body, t, 4, r.askSize);
    LongAtIff(body, t, 5, r.timestamp);
  }

  /** The fixed part of a written message: the position 20 of the table, a vtable of 16 bytes with the
      length of the table and six offsets, and the way back to it. */
  predicate Laid(raw: bytes, tableLen: nat, offsets: seq<nat>) {
    && Stands(raw, 0, LE(20, 4)) && Stands(raw, 4, LE(16, 2)) && Stands(raw, 6, LE(tableLen, 2))
    && (forall i :: 0 <= i < |offsets| ==> Stands(raw, 8 + 2 * i, LE(offsets[i], 2)))
    && Stands(raw, 20, LE(16, 4))
  }

  lemma HeadLaid(parts: seq<bytes>, tableLen: nat, offsets: seq<nat>)
    requires TableHead(parts, tableLen, offsets)
    ensures Laid(Join(parts), tableLen, offsets)
  {
    hide LE, Join, StartOf;
    forall i | 1 <= i <= 8 ensures |parts[i]| == 2 {
      assert i >= 3 ==> parts[3 + (i - 3)] == LE(offsets[i - 3], 2);
    }
    TableStarts(parts);
    forall i | 0 <= i <= 9 ensures Stands(Join(parts), StartOf(parts, i), parts[i]) {
      Piece(parts, i);
    }
    forall i | 0 <= i < 6 ensures Stands(Join(parts), 8 + 2 * i, LE(offsets[i], 2)) {
      assert parts[3 + i] == LE(offsets[i], 2) && StartOf(parts, 3 + i) == 8 + 2 * i;
    }
  }

  /** Both written tables begin like that. */
  lemma TablesLaid<F(!new)>(p: Prims<F>, t: Trade<F>, q: Quote<F>)
    requires -TWO63 <= t.timestamp < TWO63 && -TWO63 <= q.timestamp < TWO63
    ensures Laid(WriteTrade(p, t), 37, [4, 8, 16, 24, 32, 36]) && Laid(WriteQuote(p, q), 48, [4, 8, 16, 24, 32, 40])
  {
    hide Laid, WriteTrade, WriteQuote;
    TradeLaid(p, t);
    QuoteLaid(p, q);
  }

  lemma TradeLaid<F(!new)>(p: Prims<F>, t: Trade<F>)
    requires -TWO63 <= t.timestamp < TWO63
    ensures Laid(WriteTrade(p, t), 37, [4, 8, 16, 24, 32, 36])
  {
    hide LE, Join, Laid;
    LE4(33);
    HeadLaid(TradeParts(p, t), 37, [4, 8, 16, 24, 32, 36]);
  }

  lemma QuoteLaid<F(!new)>(p: Prims<F>, q: Quote<F>)
    requires -TWO63 <= q.timestamp < TWO63
    ensures Laid(WriteQuote(p, q), 48, [4, 8, 16, 24, 32, 40])
  {
    hide LE, Join, Laid;
    LE4(44);
    HeadLaid(QuoteParts(p, q), 48, [4, 8, 16, 24, 32, 40]);
  }

  // ---- frames and strings ----

  function BigEndian(a: nat, b: nat, c: nat, d: nat): nat {
    a * 0x100_0000 + b * 0x1_0000 + c * 0x100 + d
  }

  /** A frame: the magic byte of the protocol, the kind of message, the length of the body with its
      high byte first, and the body. */
  lemma FrameLayout<F(!new)>(p: Prims<F>, protocol: Protocol, m: Message<F>)
    requires -TWO63 <= Timestamp(m) < TWO63
    ensures
      var raw, n := Serialize(p, protocol, m), |Body(p, protocol, m)|;
      && |raw| == 6 + n && raw[6..] == Body(p, protocol, m)
      && raw[0] == (if protocol.ProtobufFrames? then 1 else 2) && raw[1] == (if m.TradeMessage? then 1 else 2)
      && (n < 0x1_0000_0000 ==> n == BigEndian(raw[2], raw[3], raw[4], raw[5]))
  {
    var body := Body(p, protocol, m);
    var n := |body|;
    var length := LE(n, 4);
    FourBytes(n);
    assert Reverse(length) == [length[3], length[2], length[1], length[0]];
  }

  lemma FourBytes(n: nat)
    ensures
      var b := LE(n, 4);
      n < 0x1_0000_0000 ==> n == BigEndian(b[3], b[2], b[1], b[0])
  {
    var b := LE(n, 4);
    assert b[1..] == LE(n / 256, 3) && b[2..] == LE(n / 256 / 256, 2) && b[3..] == LE(n / 256 / 256 / 256, 1);
    assert b[0] == n % 256 && b[1] == n / 256 % 256 && b[2] == n / 256 / 256 % 256;
  }

  /** When a frame is too short, and when its header is refused. */
  lemma FrameFaults(protocol: Protocol, raw: bytes)
    ensures ParseFrame(protocol, raw) == Error(TooShort) <==> |raw| < 6
    ensures |raw| >= 6 ==>
      (ParseFrame(protocol, raw) == Error(BadHeader) <==>
        || raw[0] != (if protocol.ProtobufFrames? then 1 else 2) || raw[1] !in [1, 2]
        || |raw| != 6 + BigEndian(raw[2], raw[3], raw[4], raw[5]))
  {
    if |raw| >= 6 {
      var length := Reverse(raw[2..6]);
      assert length == [raw[5], raw[4], raw[3], raw[2]];
      FourBack(length);
    }
  }

  lemma FourBack(b: bytes)
    requires |b| == 4
    ensures FromLE(b) == BigEndian(b[3], b[2], b[1], b[0])
  {
    assert FromLE(b) == b[0] + 256 * FromLE(b[1..]) && FromLE(b[1..]) == b[1] + 256 * FromLE(b[2..]);
    assert b[1..][1..] == b[2..] && b[2..][1..] == b[3..] && b[3..][1..] == [];
    assert FromLE(b[2..]) == b[2] + 256 * FromLE(b[3..]) && FromLE(b[3..]) == b[3];
  }

  /** A string: its length in four bytes, its text, and a zero byte. */
  function Terminated(text: bytes): bytes {
    LE(|text|, 4) + text + [0]
  }

  /** Both tables end in their strings, in the order of their fields. */
  lemma TextsTerminated<F(!new)>(p: Prims<F>, t: Trade<F>, q: Quote<F>)
    requires -TWO63 <= t.timestamp < TWO63 && -TWO63 <= q.timestamp < TWO63
    ensures
      var end := Terminated(p.encode(t.symbol)) + Terminated(p.encode(t.tradeId));
      exists head :: WriteTrade(p, t) == head + end
    ensures exists head :: WriteQuote(p, q) == head + Terminated(p.encode(q.symbol))
  {
    TradeEnds(p, t);
    QuoteEnds(p, q);
  }

  lemma TradeEnds<F(!new)>(p: Prims<F>, t: Trade<F>)
    requires -TWO63 <= t.timestamp < TWO63
    ensures
      var end := Terminated(p.encode(t.symbol)) + Terminated(p.encode(t.tradeId));
      exists head :: WriteTrade(p, t) == head + end
  {
    hide Join, LE;
    var parts, sym, id := TradeParts(p, t), p.encode(t.symbol), p.encode(t.tradeId);
    JoinSplit(parts, 16);
    JoinSplit(parts[16..], 3);
    JoinThree(LE(|sym|, 4), sym, [0]);
    JoinThree(LE(|id|, 4), id, [0]);
    assert parts[16..][..3] == [LE(|sym|, 4), sym, [0]] && parts[16..][3..] == [LE(|id|, 4), id, [0]];
    assert WriteTrade(p, t) == Join(parts[..16]) + (Terminated(sym) + Terminated(id));
  }

  lemma QuoteEnds<F(!new)>(p: Prims<F>, q: Quote<F>)
    requires -TWO63 <= q.timestamp < TWO63
    ensures exists head :: WriteQuote(p, q) == head + Terminated(p.encode(q.symbol))
  {
    hide Join, LE;
    var parts, sym := QuoteParts(p, q), p.encode(q.symbol);
    JoinSplit(parts, 16);
    JoinThree(LE(|sym|, 4), sym, [0]);
    assert parts[16..] == [LE(|sym|, 4), sym, [0]];
    assert WriteQuote(p, q) == Join(parts[..16]) + Terminated(sym);
  }

  lemma JoinThree(a: bytes, b: bytes, c: bytes)
    ensures Join([a, b, c]) == a + b + c
  {
    assert [a, b, c][..2] == [a, b] && [a, b][..1] == [a] && [a][..0] == [];
    assert Join([a]) == [] + a == a;
  }

  lemma {:induction false} JoinSplit(parts: seq<bytes>, n: nat)
    requires n <= |parts|
    ensures Join(parts) == Join(parts[..n]) + Join(parts[n..])
    decreases |parts|
  {
    if n == |parts| {
      assert parts[..n] == parts && parts[n..] == [];
    } else {
      var last := |parts| - 1;
      JoinSplit(parts[..last], n);
      assert parts[..last][..n] == parts[..n];
      assert parts[..last][n..] == parts[n..][..last - n];
    }
  }
}
