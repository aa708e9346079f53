/** _FlatBuffersCodec and the framing of src/market_data/deserializers/binary.py. */
module FlatBuffers {
  import opened Options
  import opened Sequences
  import opened Wire
  import opened Protobuf

  const TWO63 := 0x8000_0000_0000_0000

  function Join(parts: seq<bytes>): bytes {
    if parts == [] then [] else Join(parts[..|parts|-1]) + parts[|parts|-1]
  }

  /** Where part i starts in Join(parts). */
  function StartOf(parts: seq<bytes>, i: nat): nat
    requires i <= |parts|
  {
    if i == 0 then 0 else StartOf(parts, i - 1) + |parts[i - 1]|
  }

  lemma {:induction false} JoinLength(parts: seq<bytes>, n: nat)
    requires n <= |parts|
    ensures |Join(parts[..n])| == StartOf(parts, n)
  {
    if n > 0 {
      assert parts[..n][..n-1] == parts[..n-1];
      JoinLength(parts, n - 1);
    }
  }

  lemma {:induction false} PartStands(parts: seq<bytes>, i: nat, n: nat)
    requires i < n <= |parts|
    ensures Stands(Join(parts[..n]), StartOf(parts, i), parts[i])
  {
    assert parts[..n][..n-1] == parts[..n-1] && parts[..n][n-1] == parts[n-1];
    JoinLength(parts, n - 1);
    if i < n - 1 {
      PartStands(parts, i, n - 1);
      var whole, start := Join(parts[..n-1]), StartOf(parts, i);
      assert Join(parts[..n])[start..start + |parts[i]|] == whole[start..start + |parts[i]|];
    }
  }

  lemma Piece(parts: seq<bytes>, i: nat)
    requires i < |parts|
    ensures Stands(Join(parts), StartOf(parts, i), parts[i])
  {
    PartStands(parts, i, |parts|);
    assert parts[..|parts|] == parts;
  }

  /** A little-endian integer among the parts reads back at its offset. */
  lemma Number(parts: seq<bytes>, i: nat, v: nat, width: nat)
    requires i < |parts| && parts[i] == LE(v, width) && v < P256(width)
    ensures StartOf(parts, i) + width <= |Join(parts)| && Read(Join(parts), StartOf(parts, i), width) == v
  {
    Piece(parts, i);
    ReadBack(Join(parts), StartOf(parts, i), v, width);
  }

  // ---- reading a table ----

  /** The root table: its position, its vtable, and the two declared lengths. */
  datatype Table = Table(root: nat, vtable: nat, vtableLen: nat, tableLen: nat)

  function OpenTable(body: bytes): (r: Result<Table>)
    ensures r.Ok? ==> r.value.vtable + r.value.vtableLen <= |body| && r.value.root + r.value.tableLen <= |body|
  {
    if |body| < 8 then Error(TooShort) else
    var root := Read(body, 0, 4);
    if root + 4 > |body| then Error(OutOfBounds) else
    var vtable := root - Signed(Read(body, root, 4), 4);
    if vtable < 0 || vtable + 4 > |body| then Error(OutOfBounds) else
    var vtableLen, tableLen := Read(body, vtable, 2), Read(body, vtable + 2, 2);
    if vtable + vtableLen > |body| || root + tableLen > |body| then Error(OutOfBounds)
    else Ok(Table(root, vtable, vtableLen, tableLen))
  }

  /** _get_field: the position of field idx, size bytes wide. */
  function FieldAt(body: bytes, t: Table, idx: nat, size: nat): (r: Result<nat>)
    requires t.vtable + t.vtableLen <= |body|
    ensures r.Ok? ==> r.value + size <= |body|
  {
    var entry := t.vtable + 4 + 2 * idx;
    if entry + 2 > t.vtable + t.vtableLen then Error(MissingField) else
    var offset := Read(body, entry, 2);
    if offset == 0 then Error(MissingField) else
    var pos := t.root + offset;
    if pos + size > t.root + t.tableLen || pos + size > |body| then Error(OutOfBounds) else Ok(pos)
  }

  /** _read_str. */
  function TextAt<F(!new)>(p: Prims<F>, body: bytes, t: Table, idx: nat): Result<string>
    requires t.vtable + t.vtableLen <= |body|
  {
    var pos :- FieldAt(body, t, idx, 4);
    var start := pos + Read(body, pos, 4);
    if start + 4 > |body| then Error(OutOfBounds) else
    var n := Read(body, start, 4);
    if start + 4 + n > |body| then Error(OutOfBounds) else
    var s := p.decode(body[start + 4..start + 4 + n]);
    if s.None? then Error(BadText) else Ok(s.value)
  }

  function FloatAt<F(!new)>(p: Prims<F>, body: bytes, t: Table, idx: nat): Result<F>
    requires t.vtable + t.vtableLen <= |body|
  {
    var pos :- FieldAt(body, t, idx, 8);
    Ok(p.unpack(body[pos..pos + 8]))
  }

  function LongAt(body: bytes, t: Table, idx: nat): Result<int>
    requires t.vtable + t.vtableLen <= |body|
  {
    var pos :- FieldAt(body, t, idx, 8);
    Ok(Signed(Read(body, pos, 8), 8))
  }

  // ---- trades ----

  /** The serialized buffer, part by part: root offset, vtable, table, two strings. */
  function TradeParts<F(!new)>(p: Prims<F>, t: Trade<F>): seq<bytes>
    requires -TWO63 <= t.timestamp < TWO63
  {
    var sym, id := p.encode(t.symbol), p.encode(t.tradeId);
    [LE(20, 4),
     LE(16, 2), LE(37, 2), LE(4, 2), LE(8, 2), LE(16, 2), LE(24, 2), LE(32, 2), LE(36, 2),
     LE(16, 4), LE(33, 4), p.pack(t.price), p.pack(t.size), LE(Wrapped(t.timestamp), 8), LE(5 + |sym| + 5, 4),
     [SideCode(t.side)],
     LE(|sym|, 4), sym, [0],
     LE(|id|, 4), id, [0]]
  }

  function WriteTrade<F(!new)>(p: Prims<F>, t: Trade<F>): bytes
    requires -TWO63 <= t.timestamp < TWO63
  {
    Join(TradeParts(p, t))
  }

  function ReadTradeTable<F(!new)>(p: Prims<F>, body: bytes): Result<Trade<F>> {
    var t :- OpenTable(body);
    var symbol :- TextAt(p, body, t, 0);
    var price :- FloatAt(p, body, t, 1);
    var size :- FloatAt(p, body, t, 2);
    var timestamp :- LongAt(body, t, 3);
    var tradeId :- TextAt(p, body, t, 4);
    var pos :- FieldAt(body, t, 5, 1);
    if body[pos] == 1 then Ok(Trade(symbol, price, size, timestamp, tradeId, Buy))
    else if body[pos] == 2 then Ok(Trade(symbol, price, size, timestamp, tradeId, Sell))
    else Error(BadSide)
  }

  lemma Widths()
    ensures P256(1) == 0x100 && P256(2) == 0x1_0000 && P256(4) == 0x1_0000_0000 && P256(8) == TWO64
  {
    assert P256(3) == 0x100_0000;
    assert P256(5) == 256 * P256(4) && P256(6) == 256 * P256(5) && P256(7) == 256 * P256(6);
  }

  /** Where the parts lie: vtable at 4, table at 20, strings after it. */
  lemma TableStarts(parts: seq<bytes>)
    requires |parts| >= 11 && |parts[0]| == 4 && |parts[9]| == 4 && |parts[10]| == 4
    requires forall i :: 1 <= i <= 8 ==> |parts[i]| == 2
    ensures StartOf(parts, 0) == 0 && StartOf(parts, 9) == 20 && StartOf(parts, 10) == 24 && StartOf(parts, 11) == 28
    ensures forall i :: 1 <= i <= 8 ==> StartOf(parts, i) == 2 + 2 * i
  {
    assert StartOf(parts, 1) == 4;
    assert StartOf(parts, 2) == 6;
    assert StartOf(parts, 3) == 8;
    assert StartOf(parts, 4) == 10;
    assert StartOf(parts, 5) == 12;
    assert StartOf(parts, 6) == 14;
    assert StartOf(parts, 7) == 16;
    assert StartOf(parts, 8) == 18;
    assert StartOf(parts, 9) == 20;
  }

  /** The first ten parts of both messages: root offset, vtable and its delta. */
  predicate TableHead(parts: seq<bytes>, tableLen: nat, offsets: seq<nat>) {
    && |parts| >= 11 && |offsets| == 6 && |parts[10]| == 4
    && parts[0] == LE(20, 4) && parts[1] == LE(16, 2) && parts[2] == LE(tableLen, 2) && parts[9] == LE(16, 4)
    && forall i :: 0 <= i < 6 ==> 0 < offsets[i] < 0x1_0000 && parts[3 + i] == LE(offsets[i], 2)
  }

  lemma OpensTable(parts: seq<bytes>, tableLen: nat, offsets: seq<nat>)
    requires TableHead(parts, tableLen, offsets) && tableLen < 0x1_0000 && 20 + tableLen <= |Join(parts)|
    ensures OpenTable(Join(parts)) == Ok(Table(20, 4, 16, tableLen))
  {
    hide LE, Read, Join, StartOf;
    forall i | 1 <= i <= 8
      ensures |parts[i]| == 2
    {
      assert i >= 3 ==> parts[3 + (i - 3)] == LE(offsets[i - 3], 2);
    }
    TableStarts(parts);
    Widths();
    Number(parts, 0, 20, 4);
    Number(parts, 9, 16, 4);
    Number(parts, 1, 16, 2);
    Number(parts, 2, tableLen, 2);
  }

  lemma FindsField(parts: seq<bytes>, tableLen: nat, offsets: seq<nat>, idx: nat, size: nat)
    requires TableHead(parts, tableLen, offsets) && 20 + tableLen <= |Join(parts)|
    requires idx < 6 && offsets[idx] + size <= tableLen
    ensures idx < |offsets| && FieldAt(Join(parts), Table(20, 4, 16, tableLen), idx, size) == Ok(20 + offsets[idx])
  {
    hide LE, Read, Join, StartOf;
    forall i | 1 <= i <= 8
      ensures |parts[i]| == 2
    {
      assert i >= 3 ==> parts[3 + (i - 3)] == LE(offsets[i - 3], 2);
    }
    TableStarts(parts);
    Widths();
    Number(parts, 3 + idx, offsets[idx], 2);
  }

  /** A float part is found through its vtable entry. */
  lemma FindsFloat<F(!new)>(p: Prims<F>, parts: seq<bytes>, tableLen: nat, offsets: seq<nat>, idx: nat, part: nat, x: F)
    requires Lawful(p) && TableHead(parts, tableLen, offsets) && 20 + tableLen <= |Join(parts)|
    requires idx < 6 && part < |parts| && offsets[idx] + 8 <= tableLen
    requires parts[part] == p.pack(x) && StartOf(parts, part) == 20 + offsets[idx]
    ensures FloatAt(p, Join(parts), Table(20, 4, 16, tableLen), idx) == Ok(x)
  {
    hide LE, Read, Join, StartOf, FieldAt, TableHead;
    FindsField(parts, tableLen, offsets, idx, 8);
    Piece(parts, part);
  }

  lemma FindsLong(parts: seq<bytes>, tableLen: nat, offsets: seq<nat>, idx: nat, part: nat, x: int)
    requires TableHead(parts, tableLen, offsets) && 20 + tableLen <= |Join(parts)| && -TWO63 <= x < TWO63
    requires idx < 6 && part < |parts| && offsets[idx] + 8 <= tableLen
    requires parts[part] == LE(Wrapped(x), 8) && StartOf(parts, part) == 20 + offsets[idx]
    ensures LongAt(Join(parts), Table(20, 4, 16, tableLen), idx) == Ok(x)
  {
    hide LE, Read, Join, StartOf, FieldAt, TableHead;
    FindsField(parts, tableLen, offsets, idx, 8);
    Widths();
    Number(parts, part, Wrapped(x), 8);
  }

  /** A string: its relative offset in the table, its length, its bytes. */
  lemma FindsText<F(!new)>(p: Prims<F>, parts: seq<bytes>, tableLen: nat, offsets: seq<nat>, idx: nat, ref: nat,
                    part: nat, s: string)
    requires Lawful(p) && TableHead(parts, tableLen, offsets) && 20 + tableLen <= |Join(parts)|
    requires idx < 6 && ref < part && part + 1 < |parts| && offsets[idx] + 4 <= tableLen
    requires StartOf(parts, ref) == 20 + offsets[idx] <= StartOf(parts, part)
    requires StartOf(parts, part) - StartOf(parts, ref) < 0x1_0000_0000 && |p.encode(s)| < 0x1_0000_0000
    requires parts[ref] == LE(StartOf(parts, part) - StartOf(parts, ref), 4)
    requires parts[part] == LE(|p.encode(s)|, 4) && parts[part + 1] == p.encode(s)
    ensures TextAt(p, Join(parts), Table(20, 4, 16, tableLen), idx) == Ok(s)
  {
    hide LE, Read, Join, StartOf, FieldAt, TableHead, TextAt, Lawful;
    FindsField(parts, tableLen, offsets, idx, 4);
    StringPiece(p, parts, ref, part, s);
    TextThere(p, Join(parts), Table(20, 4, 16, tableLen), idx, 20 + offsets[idx], StartOf(parts, part), s);
  }

  /** A reference, and the length and text it refers to. */
  lemma StringPiece<F(!new)>(p: Prims<F>, parts: seq<bytes>, ref: nat, part: nat, s: string)
    requires ref < part && part + 1 < |parts| && StartOf(parts, ref) <= StartOf(parts, part)
    requires StartOf(parts, part) - StartOf(parts, ref) < 0x1_0000_0000 && |p.encode(s)| < 0x1_0000_0000
    requires parts[ref] == LE(StartOf(parts, part) - StartOf(parts, ref), 4)
    requires parts[part] == LE(|p.encode(s)|, 4) && parts[part + 1] == p.encode(s)
    ensures var body, start := Join(parts), StartOf(parts, part);
      && StartOf(parts, ref) + 4 <= |body| && StartOf(parts, ref) + Read(body, StartOf(parts, ref), 4) == start
      && start + 4 <= |body| && Read(body, start, 4) == |p.encode(s)| && Stands(body, start + 4, p.encode(s))
  {
    assert StartOf(parts, part + 1) == StartOf(parts, part) + 4;
    hide LE, Read, Join, StartOf, Stands;
    Widths();
    Number(parts, ref, StartOf(parts, part) - StartOf(parts, ref), 4);
    Number(parts, part, |p.encode(s)|, 4);
    Piece(parts, part + 1);
  }

  lemma TextThere<F(!new)>(p: Prims<F>, body: bytes, t: Table, idx: nat, pos: nat, start: nat, s: string)
    requires Lawful(p) && t.vtable + t.vtableLen <= |body| && FieldAt(body, t, idx, 4) == Ok(pos)
    requires pos + 4 <= |body| && pos + Read(body, pos, 4) == start && start + 4 <= |body|
    requires Read(body, start, 4) == |p.encode(s)| && Stands(body, start + 4, p.encode(s))
    ensures TextAt(p, body, t, idx) == Ok(s)
  {
    hide Read, FieldAt;
  }

  const TRADE_OFFSETS: seq<nat> := [4, 8, 16, 24, 32, 36]

  lemma TradeStarts<F(!new)>(p: Prims<F>, t: Trade<F>)
    requires Lawful(p) && -TWO63 <= t.timestamp < TWO63
    ensures
      var parts, s := TradeParts(p, t), |p.encode(t.symbol)|;
      && StartOf(parts, 10) == 24 && StartOf(parts, 11) == 28 && StartOf(parts, 12) == 36 && StartOf(parts, 13) == 44
      && StartOf(parts, 14) == 52 && StartOf(parts, 15) == 56 && StartOf(parts, 16) == 57
        && StartOf(parts, 19) == 62 + s
      && |Join(parts)| >= 57
  {
    var parts := TradeParts(p, t);
    TableStarts(parts);
    hide LE, Join;
    assert StartOf(parts, 12) == 36;
    assert StartOf(parts, 13) == 44;
    assert StartOf(parts, 14) == 52;
    assert StartOf(parts, 15) == 56;
    assert StartOf(parts, 16) == 57;
    assert StartOf(parts, 17) == 61;
    assert StartOf(parts, 18) == 61 + |p.encode(t.symbol)|;
    Piece(parts, 16);
  }

  lemma TradeHead<F(!new)>(p: Prims<F>, t: Trade<F>)
    requires -TWO63 <= t.timestamp < TWO63
    ensures TableHead(TradeParts(p, t), 37, TRADE_OFFSETS)
    ensures
      var parts := TradeParts(p, t);
      var sym, id := p.encode(t.symbol), p.encode(t.tradeId);
      && |parts| == 22 && parts[10] == LE(33, 4) && parts[11] == p.pack(t.price) && parts[12] == p.pack(t.size)
      && parts[13] == LE(Wrapped(t.timestamp), 8) && parts[14] == LE(5 + |sym| + 5, 4)
        && parts[15] == [SideCode(t.side)]
      && parts[16] == LE(|sym|, 4) && parts[17] == sym && parts[19] == LE(|id|, 4) && parts[20] == id
  {
    hide LE;
  }

  lemma TradeTexts<F(!new)>(p: Prims<F>, t: Trade<F>)
    requires Lawful(p) && -TWO63 <= t.timestamp < TWO63
    requires |p.encode(t.symbol)| + |p.encode(t.tradeId)| + 67 < 0x1_0000_0000
    ensures |WriteTrade(p, t)| >= 57
    ensures TextAt(p, WriteTrade(p, t), Table(20, 4, 16, 37), 0) == Ok(t.symbol)
    ensures TextAt(p, WriteTrade(p, t), Table(20, 4, 16, 37), 4) == Ok(t.tradeId)
  {
    var parts, offsets := TradeParts(p, t), TRADE_OFFSETS;
    TradeStarts(p, t);
    TradeHead(p, t);
    hide LE, Join, StartOf, TextAt, TableHead, Lawful, TradeParts;
    FindsText(p, parts, 37, offsets, 0, 10, 16, t.symbol);
    FindsText(p, parts, 37, offsets, 4, 14, 19, t.tradeId);
  }

  lemma TradeNumbers<F(!new)>(p: Prims<F>, t: Trade<F>)
    requires Lawful(p) && -TWO63 <= t.timestamp < TWO63
    ensures |WriteTrade(p, t)| >= 57
    ensures
      var body, table := WriteTrade(p, t), Table(20, 4, 16, 37);
      && FloatAt(p, body, table, 1) == Ok(t.price) && FloatAt(p, body, table, 2) == Ok(t.size)
      && LongAt(body, table, 3) == Ok(t.timestamp)
      && FieldAt(body, table, 5, 1) == Ok(56) && body[56] == SideCode(t.side)
  {
    var parts, offsets := TradeParts(p, t), TRADE_OFFSETS;
    TradeStarts(p, t);
    TradeHead(p, t);
    hide LE, Join, StartOf, FloatAt, LongAt, FieldAt, TableHead, Lawful, TradeParts, Wrapped, Read;
    FindsFloat(p, parts, 37, offsets, 1, 11, t.price);
    FindsFloat(p, parts, 37, offsets, 2, 12, t.size);
    FindsLong(parts, 37, offsets, 3, 13, t.timestamp);
    FindsField(parts, 37, offsets, 5, 1);
    Piece(parts, 15);
    assert Join(parts)[56] == Join(parts)[56..57][0];
  }

  /** Serialising and deserialising a trade, negative timestamps included. */
  lemma TradeTableRoundTrip<F(!new)>(p: Prims<F>, t: Trade<F>)
    requires Lawful(p) && -TWO63 <= t.timestamp < TWO63
    requires |p.encode(t.symbol)| + |p.encode(t.tradeId)| + 67 < 0x1_0000_0000
    ensures ReadTradeTable(p, WriteTrade(p, t)) == Ok(t)
  {
    hide Join, StartOf, TextAt, FloatAt, LongAt, FieldAt, OpenTable, TableHead, Lawful, TradeParts;
    TradeHead(p, t);
    TradeNumbers(p, t);
    OpensTable(TradeParts(p, t), 37, TRADE_OFFSETS);
    TradeTexts(p, t);
  }

  // ---- quotes ----

  function QuoteParts<F(!new)>(p: Prims<F>, q: Quote<F>): seq<bytes>
    requires -TWO63 <= q.timestamp < TWO63
  {
    var sym := p.encode(q.symbol);
    [LE(20, 4),
     LE(16, 2), LE(48, 2), LE(4, 2), LE(8, 2), LE(16, 2), LE(24, 2), LE(32, 2), LE(40, 2),
     LE(16, 4), LE(44, 4), p.pack(q.bidPrice), p.pack(q.bidSize), p.pack(q.askPrice), p.pack(q.askSize),
     LE(Wrapped(q.timestamp), 8),
     LE(|sym|, 4), sym, [0]]
  }

  function WriteQuote<F(!new)>(p: Prims<F>, q: Quote<F>): bytes
    requires -TWO63 <= q.timestamp < TWO63
  {
    Join(QuoteParts(p, q))
  }

  function ReadQuoteTable<F(!new)>(p: Prims<F>, body: bytes): Result<Quote<F>> {
    var t :- OpenTable(body);
    var symbol :- TextAt(p, body, t, 0);
    var bidPrice :- FloatAt(p, body, t, 1);
    var bidSize :- FloatAt(p, body, t, 2);
    var askPrice :- FloatAt(p, body, t, 3);
    var askSize :- FloatAt(p, body, t, 4);
    var timestamp :- LongAt(body, t, 5);
    Ok(Quote(symbol, bidPrice, bidSize, askPrice, askSize, timestamp))
  }

  const QUOTE_OFFSETS: seq<nat> := [4, 8, 16, 24, 32, 40]

  lemma QuoteStarts<F(!new)>(p: Prims<F>, q: Quote<F>)
    requires Lawful(p) && -TWO63 <= q.timestamp < TWO63
    ensures
      var parts := QuoteParts(p, q);
      && StartOf(parts, 10) == 24 && StartOf(parts, 11) == 28 && StartOf(parts, 12) == 36 && StartOf(parts, 13) == 44
      && StartOf(parts, 14) == 52 && StartOf(parts, 15) == 60 && StartOf(parts, 16) == 68 && |Join(parts)| >= 68
  {
    var parts := QuoteParts(p, q);
    TableStarts(parts);
    hide LE, Join;
    assert StartOf(parts, 12) == 36;
    assert StartOf(parts, 13) == 44;
    assert StartOf(parts, 14) == 52;
    assert StartOf(parts, 15) == 60;
    Piece(parts, 16);
  }

  lemma QuoteTableRoundTrip<F(!new)>(p: Prims<F>, q: Quote<F>)
    requires Lawful(p) && -TWO63 <= q.timestamp < TWO63 && |p.encode(q.symbol)| < 0x1_0000_0000
    ensures ReadQuoteTable(p, WriteQuote(p, q)) == Ok(q)
  {
    var parts, offsets := QuoteParts(p, q), QUOTE_OFFSETS;
    QuoteStarts(p, q);
    assert TableHead(parts, 48, offsets);
    hide LE, Join, StartOf, TextAt, FloatAt, LongAt, FieldAt, OpenTable, TableHead, Lawful;
    OpensTable(parts, 48, offsets);
    FindsText(p, parts, 48, offsets, 0, 10, 16, q.symbol);
    FindsFloat(p, parts, 48, offsets, 1, 11, q.bidPrice);
    FindsFloat(p, parts, 48, offsets, 2, 12, q.bidSize);
    FindsFloat(p, parts, 48, offsets, 3, 13, q.askPrice);
    FindsFloat(p, parts, 48, offsets, 4, 14, q.askSize);
    FindsLong(parts, 48, offsets, 5, 15, q.timestamp);
  }

  // ---- framing ----

  datatype Protocol = ProtobufFrames | FlatBufferFrames

  datatype Message<F> = TradeMessage(trade: Trade<F>) | QuoteMessage(quote: Quote<F>)

  function Magic(protocol: Protocol): byte {
    if protocol.ProtobufFrames? then 1 else 2
  }

  function Kind<F(!new)>(m: Message<F>): byte {
    if m.TradeMessage? then 1 else 2
  }

  function Timestamp<F(!new)>(m: Message<F>): int {
    if m.TradeMessage? then m.trade.timestamp else m.quote.timestamp
  }

  function Body<F(!new)>(p: Prims<F>, protocol: Protocol, m: Message<F>): bytes
    requires -TWO63 <= Timestamp(m) < TWO63
  {
    match (protocol, m)
    case (ProtobufFrames, TradeMessage(t)) => SerializeTrade(p, t)
    case (ProtobufFrames, QuoteMessage(q)) => SerializeQuote(p, q)
    case (FlatBufferFrames, TradeMessage(t)) => WriteTrade(p, t)
    case (FlatBufferFrames, QuoteMessage(q)) => WriteQuote(p, q)
  }

  /** struct.pack(">BBI", ..) in front of the body. */
  function Serialize<F(!new)>(p: Prims<F>, protocol: Protocol, m: Message<F>): bytes
    requires -TWO63 <= Timestamp(m) < TWO63
  {
    var body := Body(p, protocol, m);
    [Magic(protocol), Kind(m)] + Reverse(LE(|body|, 4)) + body
  }

  function ParseFrame(protocol: Protocol, raw: bytes): Result<(byte, bytes)> {
    if |raw| < 6 then Error(TooShort)
    else if raw[0] != Magic(protocol) then Error(BadHeader)
    else if raw[1] !in [1, 2] then Error(BadHeader)
    else if |raw| != 6 + FromLE(Reverse(raw[2..6])) then Error(BadHeader)
    else Ok((raw[1], raw[6..]))
  }

  function Deserialize<F(!new)>(p: Prims<F>, protocol: Protocol, raw: bytes): Result<Message<F>> {
    var (kind, body) :- ParseFrame(protocol, raw);
    if kind == 1 then
      var t :- if protocol.ProtobufFrames? then DeserializeTrade(p, body) else ReadTradeTable(p, body);
      Ok(TradeMessage(t))
    else
      var q :- if protocol.ProtobufFrames? then DeserializeQuote(p, body) else ReadQuoteTable(p, body);
      Ok(QuoteMessage(q))
  }

  lemma FrameRoundTrip(protocol: Protocol, kind: byte, body: bytes)
    requires kind in [1, 2] && |body| < 0x1_0000_0000
    ensures ParseFrame(protocol, [Magic(protocol), kind] + Reverse(LE(|body|, 4)) + body) == Ok((kind, body))
  {
    hide LE, FromLE, Reverse;
    var n := LE(|body|, 4);
    Widths();
    LERoundTrip(|body|, 4);
    ReverseTwice(n);
    HeaderParts(Magic(protocol), kind, Reverse(n), body);
  }

  lemma HeaderParts(magic: byte, kind: byte, length: bytes, body: bytes)
    requires |length| == 4
    ensures var raw := [magic, kind] + length + body;
      |raw| == 6 + |body| && raw[0] == magic && raw[1] == kind && raw[2..6] == length && raw[6..] == body
  {}

  /** For every trade and quote, in both protocols: deserialising the serialised frame gives
      back the message. */
  lemma MessageRoundTrip<F(!new)>(p: Prims<F>, protocol: Protocol, m: Message<F>)
    requires Lawful(p) && 0 <= Timestamp(m) < TWO63
    requires |Body(p, protocol, m)| < 0x1_0000_0000
    ensures Deserialize(p, protocol, Serialize(p, protocol, m)) == Ok(m)
  {
    hide ParseFrame, SerializeTrade, SerializeQuote, WriteTrade, WriteQuote, DeserializeTrade, DeserializeQuote,
         ReadTradeTable, ReadQuoteTable, LE;
    var body := Body(p, protocol, m);
    FrameRoundTrip(protocol, Kind(m), body);
    BodyBounds(p, protocol, m);
    match (protocol, m)
    case (ProtobufFrames, TradeMessage(t)) => TradeRoundTrip(p, t);
    case (ProtobufFrames, QuoteMessage(q)) => QuoteRoundTrip(p, q);
    case (FlatBufferFrames, TradeMessage(t)) => TradeTableRoundTrip(p, t);
    case (FlatBufferFrames, QuoteMessage(q)) => QuoteTableRoundTrip(p, q);
  }

  /** Strings are shorter than the body that holds them. */
  lemma BodyBounds<F(!new)>(p: Prims<F>, protocol: Protocol, m: Message<F>)
    requires Lawful(p) && -TWO63 <= Timestamp(m) < TWO63
    ensures m.TradeMessage? ==>
      |p.encode(m.trade.symbol)| + |p.encode(m.trade.tradeId)| <= |Body(p, protocol, m)|
    ensures m.TradeMessage? && protocol.FlatBufferFrames? ==>
      |p.encode(m.trade.symbol)| + |p.encode(m.trade.tradeId)| + 67 == |Body(p, protocol, m)|
    ensures m.QuoteMessage? ==> |p.encode(m.quote.symbol)| <= |Body(p, protocol, m)|
  {
    if protocol.FlatBufferFrames? {
      if m.TradeMessage? {
        TradeLength(p, m.trade);
      } else {
        QuoteStarts(p, m.quote);
        Piece(QuoteParts(p, m.quote), 17);
      }
    }
  }

  lemma TradeLength<F(!new)>(p: Prims<F>, t: Trade<F>)
    requires Lawful(p) && -TWO63 <= t.timestamp < TWO63
    ensures |WriteTrade(p, t)| == |p.encode(t.symbol)| + |p.encode(t.tradeId)| + 67
  {
    var parts := TradeParts(p, t);
    TradeStarts(p, t);
    JoinLength(parts, 22);
    assert parts[..22] == parts;
    hide LE, Join;
    assert StartOf(parts, 20) == 66 + |p.encode(t.symbol)|;
    assert StartOf(parts, 21) == 66 + |p.encode(t.symbol)| + |p.encode(t.tradeId)|;
  }

  /** A frame of one protocol is refused by the other. */
  lemma WrongProtocol<F(!new)>(p: Prims<F>, protocol: Protocol, other: Protocol, m: Message<F>)
    requires -TWO63 <= Timestamp(m) < TWO63 && protocol != other
    ensures Deserialize(p, other, Serialize(p, protocol, m)) == Error(BadHeader)
  {
    hide Body, LE;
    var body := Body(p, protocol, m);
    assert |Serialize(p, protocol, m)| == 6 + |body|;
  }

}
