/** _ProtobufCodec of src/market_data/deserializers/binary.py: trades and quotes as tagged
    fields, read back from any order of the fields. */
module Protobuf {
  import opened Options
  import opened Wire

  datatype Side = Buy | Sell

  /** UTF-8 and IEEE-754 packing, used only through their laws. */
  datatype Prims<!F(!new)> = Prims(encode: string -> bytes, decode: bytes -> Option<string>,
                                   pack: F -> bytes, unpack: bytes -> F)

  ghost predicate Lawful<F(!new)>(p: Prims<F>) {
    && (forall s :: p.decode(p.encode(s)) == Some(s))
    && (forall x :: |p.pack(x)| == 8 && p.unpack(p.pack(x)) == x)
  }

  datatype Trade<F> = Trade(symbol: string, price: F, size: F, timestamp: int, tradeId: string, side: Side)

  datatype Quote<F> = Quote(symbol: string, bidPrice: F, bidSize: F, askPrice: F, askSize: F, timestamp: int)

  function SideCode(s: Side): byte {
    if s.Buy? then 1 else 2
  }

  // ---- trades ----

  function SerializeTrade<F(!new)>(p: Prims<F>, t: Trade<F>): bytes
    requires t.timestamp >= -TWO64
  {
    ([0x0A] + Varint(|p.encode(t.symbol)|) + p.encode(t.symbol))
    + ([0x11] + p.pack(t.price))
    + ([0x19] + p.pack(t.size))
    + ([0x20] + Varint(Wrapped(t.timestamp)))
    + ([0x2A] + Varint(|p.encode(t.tradeId)|) + p.encode(t.tradeId))
    + ([0x30] + Varint(SideCode(t.side)))
  }

  datatype TradeAcc<F> = TradeAcc(symbol: Option<string>, price: Option<F>, size: Option<F>,
                                  timestamp: Option<int>, tradeId: Option<string>, side: Option<Side>)

  /** The branches of the loop in deserialize_trade, for one field. */
  function ApplyTrade<F(!new)>(p: Prims<F>, acc: TradeAcc<F>, f: Field): Result<TradeAcc<F>> {
    match f
    case VarintField(num, v) =>
      if num == 4 then Ok(acc.(timestamp := Some(v)))
      else if num == 6 then
        if v == 1 then Ok(acc.(side := Some(Buy))) else if v == 2 then Ok(acc.(side := Some(Sell))) else Error(BadSide)
      else Ok(acc)
    case Fixed64(num, raw) =>
      if num == 2 then Ok(acc.(price := Some(p.unpack(raw))))
      else if num == 3 then Ok(acc.(size := Some(p.unpack(raw))))
      else Ok(acc)
    case Delimited(num, raw) =>
      var s := p.decode(raw);
      if s.None? then Error(BadText)
      else if num == 1 then Ok(acc.(symbol := s))
      else if num == 5 then Ok(acc.(tradeId := s))
      else if num == 6 then
        if s.value in ["BUY", "Side.BUY"] then Ok(acc.(side := Some(Buy)))
        else if s.value in ["SELL", "Side.SELL"] then Ok(acc.(side := Some(Sell)))
        else Error(BadSide)
      else Ok(acc)
    case Fixed32(_, _) => Ok(acc)
  }

  function ReadTrade<F(!new)>(p: Prims<F>, body: bytes, offset: nat, acc: TradeAcc<F>): Result<TradeAcc<F>>
    decreases |body| - offset
  {
    if offset >= |body| then Ok(acc)
    else
      var (f, q) :- ReadField(body, offset);
      var acc' :- ApplyTrade(p, acc, f);
      ReadTrade(p, body, q, acc')
  }

  function CompleteTrade<F(!new)>(acc: TradeAcc<F>): Result<Trade<F>> {
    if acc.symbol.None? || acc.price.None? || acc.size.None? || acc.timestamp.None? || acc.tradeId.None?
       || acc.side.None?
    then Error(Incomplete)
    else Ok(Trade(acc.symbol.value, acc.price.value, acc.size.value, acc.timestamp.value, acc.tradeId.value,
                  acc.side.value))
  }

  function NoTrade<F(!new)>(): TradeAcc<F> {
    TradeAcc(None, None, None, None, None, None)
  }

  function DeserializeTrade<F(!new)>(p: Prims<F>, body: bytes): Result<Trade<F>> {
    var acc :- ReadTrade(p, body, 0, NoTrade());
    CompleteTrade(acc)
  }

  /** deserialize_trade as the loop it is. */
  method DecodeTrade<F(!new)>(p: Prims<F>, body: bytes) returns (r: Result<Trade<F>>)
    ensures r == DeserializeTrade(p, body)
  {
    var offset: nat, acc: TradeAcc<F> := 0, NoTrade();
    while offset < |body|
      invariant ReadTrade(p, body, 0, NoTrade()) == ReadTrade(p, body, offset, acc)
      decreases |body| - offset
    {
      var f := ReadField(body, offset);
      if f.Error? {
        return Error(f.fault);
      }
      var next := ApplyTrade(p, acc, f.value.0);
      if next.Error? {
        return Error(next.fault);
      }
      offset, acc := f.value.1, next.value;
    }
    r := CompleteTrade(acc);
  }

  /** The six fields of a trade, in the order in which they are written. */
  function TradeFields<F(!new)>(p: Prims<F>, t: Trade<F>): seq<Field>
    requires t.timestamp >= -TWO64
  {
    [Delimited(1, p.encode(t.symbol)), Fixed64(2, p.pack(t.price)), Fixed64(3, p.pack(t.size)),
     VarintField(4, Wrapped(t.timestamp)), Delimited(5, p.encode(t.tradeId)), VarintField(6, SideCode(t.side))]
  }

  function WriteFields(fs: seq<Field>): bytes {
    if fs == [] then [] else WriteField(fs[0]) + WriteFields(fs[1..])
  }

  lemma WriteSix(fs: seq<Field>)
    requires |fs| == 6
    ensures WriteFields(fs) == WriteField(fs[0]) + WriteField(fs[1]) + WriteField(fs[2])
                             + WriteField(fs[3]) + WriteField(fs[4]) + WriteField(fs[5])
  {
    hide WriteField;
    assert fs[1..][1..] == fs[2..] && fs[2..][1..] == fs[3..] && fs[3..][1..] == fs[4..]
        && fs[4..][1..] == fs[5..] && fs[5..][1..] == [];
    assert WriteFields(fs[5..]) == WriteField(fs[5]);
    assert WriteFields(fs[4..]) == WriteField(fs[4]) + WriteField(fs[5]);
    assert WriteFields(fs[3..]) == WriteField(fs[3]) + WriteField(fs[4]) + WriteField(fs[5]);
    assert WriteFields(fs[2..]) == WriteField(fs[2]) + WriteField(fs[3]) + WriteField(fs[4]) + WriteField(fs[5]);
  }

  /** The one-byte tags of the serializer. */
  lemma TagBytes(f: Field)
    requires f.num * 8 + WireType(f) < 128
    ensures WriteField(f) == [f.num * 8 + WireType(f)] + Payload(f)
    ensures f.Delimited? ==> WriteField(f) == [f.num * 8 + 2] + Varint(|f.raw|) + f.raw
  {
    hide Payload;
    if f.Delimited? {
      PayloadOf(f);
      assert [f.num * 8 + 2] + (Varint(|f.raw|) + f.raw) == [f.num * 8 + 2] + Varint(|f.raw|) + f.raw;
    }
  }

  lemma PayloadOf(f: Field)
    requires f.Delimited?
    ensures Payload(f) == Varint(|f.raw|) + f.raw
  {
  }

  lemma SerializedFields<F(!new)>(p: Prims<F>, t: Trade<F>)
    requires t.timestamp >= -TWO64
    ensures SerializeTrade(p, t) == WriteFields(TradeFields(p, t))
  {
    hide WriteField, WriteFields, Varint;
    var fs := TradeFields(p, t);
    WriteSix(fs);
    TagBytes(fs[0]);
    TagBytes(fs[1]);
    TagBytes(fs[2]);
    TagBytes(fs[3]);
    TagBytes(fs[4]);
    TagBytes(fs[5]);
  }

  /** A field that says nothing about a trade: an unknown number, with readable text. */
  predicate TradeSkips<F(!new)>(p: Prims<F>, f: Field) {
    match f
    case VarintField(num, _) => num !in [4, 6]
    case Fixed64(num, _) => num !in [2, 3]
    case Delimited(num, raw) => num !in [1, 5, 6] && p.decode(raw).Some?
    case Fixed32(_, _) => true
  }

  function FoldTrade<F(!new)>(p: Prims<F>, fs: seq<Field>, acc: TradeAcc<F>): Result<TradeAcc<F>> {
    if fs == [] then Ok(acc)
    else
      var acc' :- ApplyTrade(p, acc, fs[0]);
      FoldTrade(p, fs[1..], acc')
  }

  lemma {:induction false} ReadIsFold<F(!new)>(p: Prims<F>, body: bytes, offset: nat, fs: seq<Field>, acc: TradeAcc<F>)
    requires (forall i :: 0 <= i < |fs| ==> WellSized(fs[i])) && offset <= |body| && body[offset..] == WriteFields(fs)
    ensures ReadTrade(p, body, offset, acc) == FoldTrade(p, fs, acc)
    decreases |fs|
  {
    hide WellSized, WriteField, ReadField, ApplyTrade;
    if fs != [] {
      var w, rest := WriteField(fs[0]), body[offset..];
      assert rest == w + WriteFields(fs[1..]);
      assert body[offset..offset + |w|] == rest[..|w|];
      assert rest[..|w|] == w;
      FieldRoundTrip(body, offset, fs[0]);
      assert body[offset + |w|..] == rest[|w|..];
      assert rest[|w|..] == WriteFields(fs[1..]);
      var acc' := ApplyTrade(p, acc, fs[0]);
      if acc'.Ok? {
        ReadIsFold(p, body, offset + |w|, fs[1..], acc'.value);
      }
    }
  }

  ghost predicate Fits<T>(o: Option<T>, v: T, said: bool) {
    if said then o == Some(v) else o == None || o == Some(v)
  }

  /** acc holds nothing but parts of t, and at least those that said marks. */
  ghost predicate PartOf<F(!new)>(t: Trade<F>, acc: TradeAcc<F>, said: set<nat>) {
    && Fits(acc.symbol, t.symbol, 1 in said) && Fits(acc.price, t.price, 2 in said) && Fits(acc.size, t.size, 3 in said)
    && Fits(acc.timestamp, t.timestamp, 4 in said) && Fits(acc.tradeId, t.tradeId, 5 in said)
    && Fits(acc.side, t.side, 6 in said)
  }

  lemma {:induction false} FoldGathers<F(!new)>(p: Prims<F>, t: Trade<F>, fs: seq<Field>, acc: TradeAcc<F>,
                                         said: set<nat>, own: set<Field>)
    requires Lawful(p) && 0 <= t.timestamp < TWO77 && PartOf(t, acc, said)
    requires forall i :: 0 <= i < |fs| ==> fs[i] in TradeFields(p, t) || TradeSkips(p, fs[i])
    requires own == set f | f in fs && f in TradeFields(p, t)
    ensures FoldTrade(p, fs, acc).Ok? && PartOf(t, FoldTrade(p, fs, acc).value, said + set f | f in own :: f.num)
    decreases |fs|
  {
    hide ApplyTrade, PartOf, TradeSkips, TradeFields, Lawful;
    if fs == [] {
      assert own == {};
      NoNums(said, own);
    } else {
      var f := fs[0];
      var acc' := ApplyTrade(p, acc, f);
      var own' := set g | g in fs[1..] && g in TradeFields(p, t);
      OwnStep(fs, TradeFields(p, t));
      if f in TradeFields(p, t) {
        ApplyOwn(p, t, acc, said, f);
        FoldGathers(p, t, fs[1..], acc'.value, said + {f.num}, own');
        OneNum(said, own', f);
      } else {
        SkipOther(p, acc, f);
        FoldGathers(p, t, fs[1..], acc, said, own');
      }
    }
  }

  lemma NoNums(said: set<nat>, own: set<Field>)
    requires own == {}
    ensures said + (set f | f in own :: f.num) == said
  {}

  lemma OneNum(said: set<nat>, own: set<Field>, f: Field)
    ensures said + {f.num} + (set g | g in own :: g.num) == said + set g | g in own + {f} :: g.num
  {}

  lemma OwnStep(fs: seq<Field>, wanted: seq<Field>)
    requires fs != []
    ensures var own, rest := set g | g in fs && g in wanted, set g | g in fs[1..] && g in wanted;
      own == if fs[0] in wanted then rest + {fs[0]} else rest
  {
    assert fs == [fs[0]] + fs[1..];
  }

  lemma SkipOther<F(!new)>(p: Prims<F>, acc: TradeAcc<F>, f: Field)
    requires TradeSkips(p, f)
    ensures ApplyTrade(p, acc, f) == Ok(acc)
  {
  }

  lemma ApplyOwn<F(!new)>(p: Prims<F>, t: Trade<F>, acc: TradeAcc<F>, said: set<nat>, f: Field)
    requires Lawful(p) && 0 <= t.timestamp < TWO77 && PartOf(t, acc, said) && f in TradeFields(p, t)
    ensures ApplyTrade(p, acc, f).Ok? && PartOf(t, ApplyTrade(p, acc, f).value, said + {f.num})
  {
    var k :| 0 <= k < 6 && f == TradeFields(p, t)[k];
  }

  /** Any order, any repetition, and any unknown fields in between: the decoder gives the same
      trade, as long as each of its six fields is there. */
  lemma AnyFieldOrder<F(!new)>(p: Prims<F>, t: Trade<F>, fs: seq<Field>)
    requires Lawful(p) && 0 <= t.timestamp < TWO77
    requires forall i :: 0 <= i < |fs| ==> WellSized(fs[i]) && (fs[i] in TradeFields(p, t) || TradeSkips(p, fs[i]))
    requires forall f :: f in TradeFields(p, t) ==> f in fs
    ensures DeserializeTrade(p, WriteFields(fs)) == Ok(t)
  {
    hide WriteFields, ReadTrade, FoldTrade, WellSized, TradeSkips, PartOf, CompleteTrade, Wrapped, Lawful;
    var body := WriteFields(fs);
    assert body[0..] == body;
    ReadIsFold(p, body, 0, fs, NoTrade());
    var own := set f | f in fs && f in TradeFields(p, t);
    NothingSaid(t);
    FoldGathers(p, t, fs, NoTrade(), {}, own);
    var ts := TradeFields(p, t);
    forall i | 0 <= i < 6
      ensures ts[i].num in {} + set f | f in own :: f.num
    {
      assert ts[i] in own;
    }
    AllSaid(p, t);
    var nums := {} + set f | f in own :: f.num;
    assert ts[0].num in nums && ts[1].num in nums && ts[2].num in nums && ts[3].num in nums
        && ts[4].num in nums && ts[5].num in nums;
    EverythingSaid(t, FoldTrade(p, fs, NoTrade()).value, nums);
  }

  lemma NothingSaid<F(!new)>(t: Trade<F>)
    ensures PartOf(t, NoTrade(), {})
  {
  }

  lemma EverythingSaid<F(!new)>(t: Trade<F>, acc: TradeAcc<F>, said: set<nat>)
    requires PartOf(t, acc, said) && {1, 2, 3, 4, 5, 6} <= said
    ensures CompleteTrade(acc) == Ok(t)
  {
  }

  lemma AllSaid<F(!new)>(p: Prims<F>, t: Trade<F>)
    requires t.timestamp >= -TWO64
    ensures forall i :: 0 <= i < 6 ==> TradeFields(p, t)[i].num == i + 1
  {
  }

  lemma OwnSized<F(!new)>(p: Prims<F>, t: Trade<F>)
    requires Lawful(p) && -TWO64 <= t.timestamp < TWO77
    requires |p.encode(t.symbol)| < 0x1_0000_0000 && |p.encode(t.tradeId)| < 0x1_0000_0000
    ensures forall i :: 0 <= i < 6 ==> WellSized(TradeFields(p, t)[i])
  {
    hide P128;
    VarintRange();
  }

  /** Serialising and deserialising a trade. */
  lemma TradeRoundTrip<F(!new)>(p: Prims<F>, t: Trade<F>)
    requires Lawful(p) && 0 <= t.timestamp < TWO77
    requires |p.encode(t.symbol)| < 0x1_0000_0000 && |p.encode(t.tradeId)| < 0x1_0000_0000
    ensures DeserializeTrade(p, SerializeTrade(p, t)) == Ok(t)
  {
    hide WellSized;
    OwnSized(p, t);
    SerializedFields(p, t);
    AnyFieldOrder(p, t, TradeFields(p, t));
  }

  /** A negative timestamp comes back shifted by 2^64: the bytes are those of another trade. */
  lemma NegativeTimestamp<F(!new)>(p: Prims<F>, t: Trade<F>)
    requires Lawful(p) && -TWO64 <= t.timestamp < 0
    requires |p.encode(t.symbol)| < 0x1_0000_0000 && |p.encode(t.tradeId)| < 0x1_0000_0000
    ensures DeserializeTrade(p, SerializeTrade(p, t)) == Ok(t.(timestamp := t.timestamp + TWO64))
  {
    TradeRoundTrip(p, t.(timestamp := t.timestamp + TWO64));
  }

  // ---- quotes ----

  function SerializeQuote<F(!new)>(p: Prims<F>, q: Quote<F>): bytes
    requires q.timestamp >= -TWO64
  {
    ([0x0A] + Varint(|p.encode(q.symbol)|) + p.encode(q.symbol))
    + ([0x11] + p.pack(q.bidPrice))
    + ([0x19] + p.pack(q.bidSize))
    + ([0x21] + p.pack(q.askPrice))
    + ([0x29] + p.pack(q.askSize))
    + ([0x30] + Varint(Wrapped(q.timestamp)))
  }

  datatype QuoteAcc<F> = QuoteAcc(symbol: Option<string>, bidPrice: Option<F>, bidSize: Option<F>,
                                  askPrice: Option<F>, askSize: Option<F>, timestamp: Option<int>)

  /** The branches of the loop in deserialize_quote: every text field is taken for the symbol. */
  function ApplyQuote<F(!new)>(p: Prims<F>, acc: QuoteAcc<F>, f: Field): Result<QuoteAcc<F>> {
    match f
    case VarintField(num, v) => Ok(if num == 6 then acc.(timestamp := Some(v)) else acc)
    case Fixed64(num, raw) =>
      if num == 2 then Ok(acc.(bidPrice := Some(p.unpack(raw))))
      else if num == 3 then Ok(acc.(bidSize := Some(p.unpack(raw))))
      else if num == 4 then Ok(acc.(askPrice := Some(p.unpack(raw))))
      else if num == 5 then Ok(acc.(askSize := Some(p.unpack(raw))))
      else Ok(acc)
    case Delimited(_, raw) =>
      var s := p.decode(raw);
      if s.None? then Error(BadText) else Ok(acc.(symbol := s))
    case Fixed32(_, _) => Ok(acc)
  }

  function ReadQuote<F(!new)>(p: Prims<F>, body: bytes, offset: nat, acc: QuoteAcc<F>): Result<QuoteAcc<F>>
    decreases |body| - offset
  {
    if offset >= |body| then Ok(acc)
    else
      var (f, q) :- ReadField(body, offset);
      var acc' :- ApplyQuote(p, acc, f);
      ReadQuote(p, body, q, acc')
  }

  function CompleteQuote<F(!new)>(acc: QuoteAcc<F>): Result<Quote<F>> {
    if acc.symbol.None? || acc.bidPrice.None? || acc.bidSize.None? || acc.askPrice.None? || acc.askSize.None?
       || acc.timestamp.None?
    then Error(Incomplete)
    else Ok(Quote(acc.symbol.value, acc.bidPrice.value, acc.bidSize.value, acc.askPrice.value, acc.askSize.value,
                  acc.timestamp.value))
  }

  function NoQuote<F(!new)>(): QuoteAcc<F> {
    QuoteAcc(None, None, None, None, None, None)
  }

  function DeserializeQuote<F(!new)>(p: Prims<F>, body: bytes): Result<Quote<F>> {
    var acc :- ReadQuote(p, body, 0, NoQuote());
    CompleteQuote(acc)
  }

  method DecodeQuote<F(!new)>(p: Prims<F>, body: bytes) returns (r: Result<Quote<F>>)
    ensures r == DeserializeQuote(p, body)
  {
    var offset: nat, acc: QuoteAcc<F> := 0, NoQuote();
    while offset < |body|
      invariant ReadQuote(p, body, 0, NoQuote()) == ReadQuote(p, body, offset, acc)
      decreases |body| - offset
    {
      var f := ReadField(body, offset);
      if f.Error? {
        return Error(f.fault);
      }
      var next := ApplyQuote(p, acc, f.value.0);
      if next.Error? {
        return Error(next.fault);
      }
      offset, acc := f.value.1, next.value;
    }
    r := CompleteQuote(acc);
  }

  function QuoteFields<F(!new)>(p: Prims<F>, q: Quote<F>): seq<Field>
    requires q.timestamp >= -TWO64
  {
    [Delimited(1, p.encode(q.symbol)), Fixed64(2, p.pack(q.bidPrice)), Fixed64(3, p.pack(q.bidSize)),
     Fixed64(4, p.pack(q.askPrice)), Fixed64(5, p.pack(q.askSize)), VarintField(6, Wrapped(q.timestamp))]
  }

  lemma SerializedQuote<F(!new)>(p: Prims<F>, q: Quote<F>)
    requires q.timestamp >= -TWO64
    ensures SerializeQuote(p, q) == WriteFields(QuoteFields(p, q))
  {
    hide WriteField, WriteFields, Varint;
    var fs := QuoteFields(p, q);
    WriteSix(fs);
    TagBytes(fs[0]);
    TagBytes(fs[1]);
    TagBytes(fs[2]);
    TagBytes(fs[3]);
    TagBytes(fs[4]);
    TagBytes(fs[5]);
  }

  function FoldQuote<F(!new)>(p: Prims<F>, fs: seq<Field>, acc: QuoteAcc<F>): Result<QuoteAcc<F>> {
    if fs == [] then Ok(acc)
    else
      var acc' :- ApplyQuote(p, acc, fs[0]);
      FoldQuote(p, fs[1..], acc')
  }

  lemma {:induction false} ReadQuoteIsFold<F(!new)>(p: Prims<F>, body: bytes, offset: nat, fs: seq<Field>,
                                             acc: QuoteAcc<F>)
    requires (forall i :: 0 <= i < |fs| ==> WellSized(fs[i])) && offset <= |body| && body[offset..] == WriteFields(fs)
    ensures ReadQuote(p, body, offset, acc) == FoldQuote(p, fs, acc)
    decreases |fs|
  {
    hide WellSized, WriteField, ReadField, ApplyQuote;
    if fs != [] {
      var w, rest := WriteField(fs[0]), body[offset..];
      assert rest == w + WriteFields(fs[1..]);
      assert body[offset..offset + |w|] == rest[..|w|];
      assert rest[..|w|] == w;
      FieldRoundTrip(body, offset, fs[0]);
      assert body[offset + |w|..] == rest[|w|..];
      assert rest[|w|..] == WriteFields(fs[1..]);
      var acc' := ApplyQuote(p, acc, fs[0]);
      if acc'.Ok? {
        ReadQuoteIsFold(p, body, offset + |w|, fs[1..], acc'.value);
      }
    }
  }

  /** The text of the last length-delimited field, whatever its number. */
  function LastText<F(!new)>(p: Prims<F>, fs: seq<Field>): Option<string> {
    if fs == [] then None
    else
      var later := LastText(p, fs[1..]);
      if later.Some? then later else if fs[0].Delimited? then p.decode(fs[0].raw) else None
  }

  predicate Readable<F(!new)>(p: Prims<F>, f: Field) {
    f.Delimited? ==> p.decode(f.raw).Some?
  }

  /** A number that the decoder takes for part of a quote is the one of q. */
  predicate QuoteNumbers<F(!new)>(p: Prims<F>, q: Quote<F>, f: Field)
    requires q.timestamp >= -TWO64
  {
    && (f.Fixed64? && f.num in [2, 3, 4, 5] ==> f in QuoteFields(p, q))
    && (f.VarintField? && f.num == 6 ==> f in QuoteFields(p, q))
  }

  /** acc after a list of fields: the numbers that are there, and the last text. */
  function Gathered<F(!new)>(p: Prims<F>, q: Quote<F>, fs: seq<Field>, acc: QuoteAcc<F>): QuoteAcc<F>
    requires q.timestamp >= -TWO64
  {
    var own := QuoteFields(p, q);
    QuoteAcc(if LastText(p, fs).Some? then LastText(p, fs) else acc.symbol,
             if own[1] in fs then Some(q.bidPrice) else acc.bidPrice,
             if own[2] in fs then Some(q.bidSize) else acc.bidSize,
             if own[3] in fs then Some(q.askPrice) else acc.askPrice,
             if own[4] in fs then Some(q.askSize) else acc.askSize,
             if own[5] in fs then Some(q.timestamp) else acc.timestamp)
  }

  lemma {:induction false} FoldQuoteGathers<F(!new)>(p: Prims<F>, q: Quote<F>, fs: seq<Field>, acc: QuoteAcc<F>)
    requires Lawful(p) && q.timestamp >= 0
    requires forall i :: 0 <= i < |fs| ==> QuoteNumbers(p, q, fs[i])
    ensures FoldQuote(p, fs, acc)
         == if forall i :: 0 <= i < |fs| ==> Readable(p, fs[i]) then Ok(Gathered(p, q, fs, acc)) else Error(BadText)
    decreases |fs|
  {
    hide ApplyQuote, QuoteNumbers, Lawful, Gathered;
    if fs == [] {
      GatheredNone(p, q, acc);
    } else {
      var f, rest := fs[0], fs[1..];
      assert forall i :: 0 <= i < |rest| ==> rest[i] == fs[i + 1];
      GatheredStep(p, q, fs, acc);
      var acc' := ApplyQuote(p, acc, f);
      if acc'.Ok? {
        FoldQuoteGathers(p, q, rest, acc'.value);
        if i :| 0 <= i < |fs| && !Readable(p, fs[i]) {
          assert i > 0 && rest[i - 1] == fs[i];
        }
      }
    }
  }

  lemma GatheredNone<F(!new)>(p: Prims<F>, q: Quote<F>, acc: QuoteAcc<F>)
    requires q.timestamp >= -TWO64
    ensures Gathered(p, q, [], acc) == acc
  {
  }

  lemma GatheredStep<F(!new)>(p: Prims<F>, q: Quote<F>, fs: seq<Field>, acc: QuoteAcc<F>)
    requires Lawful(p) && q.timestamp >= 0 && fs != [] && QuoteNumbers(p, q, fs[0])
    ensures
      var acc' := ApplyQuote(p, acc, fs[0]);
      if Readable(p, fs[0]) then acc'.Ok? && Gathered(p, q, fs, acc) == Gathered(p, q, fs[1..], acc'.value)
      else acc' == Error(BadText)
  {
    hide QuoteNumbers, QuoteFields, LastText;
    var f := fs[0];
    assert fs == [f] + fs[1..];
    LastTextStep(p, fs);
    WhichNumber(p, q, f);
  }

  lemma LastTextStep<F(!new)>(p: Prims<F>, fs: seq<Field>)
    requires fs != []
    ensures LastText(p, fs) ==
      if LastText(p, fs[1..]).Some? then LastText(p, fs[1..])
      else if fs[0].Delimited? then p.decode(fs[0].raw) else None
  {
  }

  /** A number that is part of q is told by wire type and number, and decodes to that part. */
  lemma WhichNumber<F(!new)>(p: Prims<F>, q: Quote<F>, f: Field)
    requires Lawful(p) && q.timestamp >= 0 && QuoteNumbers(p, q, f)
    ensures
      var own := QuoteFields(p, q);
      && (forall k :: 1 <= k < 5 ==> (f == own[k] <==> f.Fixed64? && f.num == k + 1))
      && (f == own[5] <==> f.VarintField? && f.num == 6) && (f == own[5] ==> f.v == q.timestamp)
      && (f == own[1] ==> p.unpack(f.raw) == q.bidPrice) && (f == own[2] ==> p.unpack(f.raw) == q.bidSize)
      && (f == own[3] ==> p.unpack(f.raw) == q.askPrice) && (f == own[4] ==> p.unpack(f.raw) == q.askSize)
  {
  }

  /** A list of fields that holds the five numbers of q, in any order, with any repetition, any
      unknown fields and any texts in between, decodes to q with the last text as its symbol. */
  lemma QuoteTakesLastText<F(!new)>(p: Prims<F>, q: Quote<F>, fs: seq<Field>)
    requires Lawful(p) && 0 <= q.timestamp < TWO77
    requires forall i :: 0 <= i < |fs| ==> WellSized(fs[i]) && QuoteNumbers(p, q, fs[i])
    requires forall k :: 1 <= k < 6 ==> QuoteFields(p, q)[k] in fs
    ensures DeserializeQuote(p, WriteFields(fs))
         == if exists i :: 0 <= i < |fs| && !Readable(p, fs[i]) then Error(BadText)
            else if LastText(p, fs).None? then Error(Incomplete)
            else Ok(q.(symbol := LastText(p, fs).value))
  {
    hide WriteFields, ReadQuote, FoldQuote, WellSized, QuoteNumbers, Lawful, LastText, QuoteFields;
    var body := WriteFields(fs);
    assert body[0..] == body;
    ReadQuoteIsFold(p, body, 0, fs, NoQuote());
    FoldQuoteGathers(p, q, fs, NoQuote());
  }

  /** The decoder gives q exactly if every text is readable and the last one is q's symbol. */
  lemma QuoteIffLastText<F(!new)>(p: Prims<F>, q: Quote<F>, fs: seq<Field>)
    requires Lawful(p) && 0 <= q.timestamp < TWO77
    requires forall i :: 0 <= i < |fs| ==> WellSized(fs[i]) && QuoteNumbers(p, q, fs[i])
    requires forall k :: 1 <= k < 6 ==> QuoteFields(p, q)[k] in fs
    ensures DeserializeQuote(p, WriteFields(fs)) == Ok(q) <==>
      (forall i :: 0 <= i < |fs| ==> Readable(p, fs[i])) && LastText(p, fs) == Some(q.symbol)
  {
    hide WriteFields, WellSized, QuoteNumbers, DeserializeQuote, LastText, QuoteFields;
    QuoteTakesLastText(p, q, fs);
  }

  /** With no text but the symbol, any order of the six fields, any repetition and any unknown
      fields give the same quote. */
  lemma AnyQuoteOrder<F(!new)>(p: Prims<F>, q: Quote<F>, fs: seq<Field>)
    requires Lawful(p) && 0 <= q.timestamp < TWO77
    requires forall i :: 0 <= i < |fs| ==> WellSized(fs[i]) && QuoteNumbers(p, q, fs[i])
    requires forall i :: 0 <= i < |fs| && fs[i].Delimited? ==> fs[i].raw == p.encode(q.symbol)
    requires forall f :: f in QuoteFields(p, q) ==> f in fs
    ensures DeserializeQuote(p, WriteFields(fs)) == Ok(q)
  {
    hide WriteFields, WellSized, QuoteNumbers, DeserializeQuote;
    var own := QuoteFields(p, q);
    assert forall k :: 1 <= k < 6 ==> own[k] in own;
    assert own[0] in own;
    var i :| 0 <= i < |fs| && fs[i] == own[0];
    OneText(p, q.symbol, fs);
    TextThere(p, fs, i);
    QuoteTakesLastText(p, q, fs);
  }

  lemma {:induction false} OneText<F(!new)>(p: Prims<F>, text: string, fs: seq<Field>)
    requires Lawful(p)
    requires forall i :: 0 <= i < |fs| && fs[i].Delimited? ==> fs[i].raw == p.encode(text)
    ensures LastText(p, fs).Some? ==> LastText(p, fs) == Some(text)
  {
    if fs != [] {
      OneText(p, text, fs[1..]);
    }
  }

  lemma {:induction false} TextThere<F(!new)>(p: Prims<F>, fs: seq<Field>, i: nat)
    requires i < |fs| && fs[i].Delimited? && Readable(p, fs[i])
    ensures LastText(p, fs).Some?
  {
    if i > 0 {
      TextThere(p, fs[1..], i - 1);
    }
  }

  /** Serialising and deserialising a quote. */
  lemma QuoteRoundTrip<F(!new)>(p: Prims<F>, q: Quote<F>)
    requires Lawful(p) && 0 <= q.timestamp < TWO77 && |p.encode(q.symbol)| < 0x1_0000_0000
    ensures DeserializeQuote(p, SerializeQuote(p, q)) == Ok(q)
  {
    hide WellSized, P128, WriteFields, DeserializeQuote, SerializeQuote;
    QuoteSized(p, q);
    SerializedQuote(p, q);
    AnyQuoteOrder(p, q, QuoteFields(p, q));
  }

  lemma QuoteSized<F(!new)>(p: Prims<F>, q: Quote<F>)
    requires Lawful(p) && 0 <= q.timestamp < TWO77 && |p.encode(q.symbol)| < 0x1_0000_0000
    ensures forall i :: 0 <= i < 6 ==> WellSized(QuoteFields(p, q)[i])
  {
    hide P128;
    VarintRange();
  }

  /** What a trade would skip, a quote takes for its symbol: an unknown text field at the end. */
  lemma UnknownTextBecomesSymbol<F(!new)>(p: Prims<F>, q: Quote<F>, text: string)
    requires Lawful(p) && 0 <= q.timestamp < TWO77
    requires |p.encode(q.symbol)| < 0x1_0000_0000 && |p.encode(text)| < 0x1_0000_0000
    ensures DeserializeQuote(p, WriteFields(QuoteFields(p, q) + [Delimited(7, p.encode(text))]))
         == Ok(q.(symbol := text))
  {
    hide P128, WriteFields, DeserializeQuote;
    QuoteSized(p, q);
    VarintRange();
    var own, extra := QuoteFields(p, q), Delimited(7, p.encode(text));
    var fs := own + [extra];
    assert forall i :: 0 <= i < 6 ==> fs[i] == own[i];
    LastTextSnoc(p, own, extra);
    QuoteTakesLastText(p, q, fs);
  }

  lemma {:induction false} LastTextSnoc<F(!new)>(p: Prims<F>, fs: seq<Field>, f: Field)
    requires f.Delimited? && Readable(p, f)
    ensures LastText(p, fs + [f]) == p.decode(f.raw)
  {
    if fs != [] {
      assert (fs + [f])[1..] == fs[1..] + [f];
      LastTextSnoc(p, fs[1..], f);
    }
  }

}
