/** What the Protobuf decoders make of any list of fields: which lists they accept, and that the
    last field of each number counts. */
module ProtobufMeaning {
  import opened Options
  import opened Wire
  import opened Protobuf

  /** The last varint of this field number. */
  function LastNumber(fs: seq<Field>, num: nat): Option<int> {
    if fs == [] then None
    else
      var f := fs[|fs|-1];
      if f.VarintField? && f.num == num then Some(f.v) else LastNumber(fs[..|fs|-1], num)
  }

  /** The last eight bytes of this field number, as a number. */
  function LastFixed<F(!new)>(p: Prims<F>, fs: seq<Field>, num: nat): Option<F> {
    if fs == [] then None
    else
      var f := fs[|fs|-1];
      if f.Fixed64? && f.num == num then Some(p.unpack(f.raw)) else LastFixed(p, fs[..|fs|-1], num)
  }

  /** The last text of this field number. */
  function LastNamed<F(!new)>(p: Prims<F>, fs: seq<Field>, num: nat): Option<string> {
    if fs == [] then None
    else
      var f := fs[|fs|-1];
      if f.Delimited? && f.num == num then p.decode(f.raw) else LastNamed(p, fs[..|fs|-1], num)
  }

  /** The last text of any number. */
  function LastOfAll<F(!new)>(p: Prims<F>, fs: seq<Field>): Option<string> {
    if fs == [] then None
    else
      var f := fs[|fs|-1];
      if f.Delimited? then p.decode(f.raw) else LastOfAll(p, fs[..|fs|-1])
  }

  /** A side is the number 1 or 2, or a text that names it. */
  predicate SaysBuy<F(!new)>(p: Prims<F>, f: Field) {
    (f.VarintField? && f.v == 1)
    || (f.Delimited? && (p.decode(f.raw) == Some("BUY") || p.decode(f.raw) == Some("Side.BUY")))
  }

  predicate SaysSell<F(!new)>(p: Prims<F>, f: Field) {
    (f.VarintField? && f.v == 2)
    || (f.Delimited? && (p.decode(f.raw) == Some("SELL") || p.decode(f.raw) == Some("Side.SELL")))
  }

  /** The side in the last varint or text of number 6. */
  function LastSide<F(!new)>(p: Prims<F>, fs: seq<Field>): Option<Side> {
    if fs == [] then None
    else
      var f := fs[|fs|-1];
      if (f.VarintField? || f.Delimited?) && f.num == 6 then
        if SaysBuy(p, f) then Some(Buy) else if SaysSell(p, f) then Some(Sell) else None
      else LastSide(p, fs[..|fs|-1])
  }

  /** Every text must be readable, and a side must be one of the two. */
  predicate Sensible<F(!new)>(p: Prims<F>, f: Field) {
    && (f.Delimited? ==> p.decode(f.raw).Some?)
    && ((f.VarintField? || f.Delimited?) && f.num == 6 ==> SaysBuy(p, f) || SaysSell(p, f))
  }

  predicate AllSensible<F(!new)>(p: Prims<F>, fs: seq<Field>) {
    forall i :: 0 <= i < |fs| ==> Sensible(p, fs[i])
  }

  /** What stops the trade decoder: the first field that is not sensible. */
  function TradeFault<F(!new)>(p: Prims<F>, fs: seq<Field>): Option<Fault> {
    if fs == [] then None
    else
      var f, before := fs[|fs|-1], TradeFault(p, fs[..|fs|-1]);
      if before.Some? || Sensible(p, f) then before
      else Some(if f.Delimited? && p.decode(f.raw).None? then BadText else BadSide)
  }

  predicate AllReadable<F(!new)>(p: Prims<F>, fs: seq<Field>) {
    forall i :: 0 <= i < |fs| ==> Readable(p, fs[i])
  }

  lemma {:induction false} FoldTradeSnoc<F(!new)>(p: Prims<F>, fs: seq<Field>, f: Field, acc: TradeAcc<F>)
    ensures FoldTrade(p, fs + [f], acc) ==
      var r := FoldTrade(p, fs, acc);
      if r.Ok? then ApplyTrade(p, r.value, f) else r
    decreases |fs|
  {
    hide ApplyTrade;
    var all := fs + [f];
    if fs == [] {
      assert all == [f] && all[1..] == [];
    } else {
      assert all[0] == fs[0] && all[1..] == fs[1..] + [f];
      var next := ApplyTrade(p, acc, fs[0]);
      if next.Ok? {
        FoldTradeSnoc(p, fs[1..], f, next.value);
      }
    }
  }

  function TradeSoFar<F(!new)>(p: Prims<F>, fs: seq<Field>): TradeAcc<F> {
    TradeAcc(LastNamed(p, fs, 1), LastFixed(p, fs, 2), LastFixed(p, fs, 3), LastNumber(fs, 4), LastNamed(p, fs, 5),
             LastSide(p, fs))
  }

  lemma {:induction false} FoldTradeIs<F(!new)>(p: Prims<F>, fs: seq<Field>)
    ensures var r := FoldTrade(p, fs, NoTrade());
      && (r.Ok? <==> AllSensible(p, fs)) && (r.Ok? ==> r.value == TradeSoFar(p, fs))
      && TradeFault(p, fs) == if r.Ok? then None else Some(r.fault)
    decreases |fs|
  {
    if fs != [] {
      var n := |fs| - 1;
      FoldTradeIs(p, fs[..n]);
      FoldTradeSnoc(p, fs[..n], fs[n], NoTrade());
      assert fs == fs[..n] + [fs[n]];
      ApplySensible(p, TradeSoFar(p, fs[..n]), fs[n]);
      TradeOneMore(p, fs);
      SensibleSnoc(p, fs);
    }
  }

  lemma SensibleSnoc<F(!new)>(p: Prims<F>, fs: seq<Field>)
    requires fs != []
    ensures AllSensible(p, fs) <==> AllSensible(p, fs[..|fs| - 1]) && Sensible(p, fs[|fs| - 1])
  {
    hide Sensible;
  }

  lemma ApplySensible<F(!new)>(p: Prims<F>, acc: TradeAcc<F>, f: Field)
    ensures ApplyTrade(p, acc, f).Ok? <==> Sensible(p, f)
    ensures !Sensible(p, f) ==>
      ApplyTrade(p, acc, f) == Error(if f.Delimited? && p.decode(f.raw).None? then BadText else BadSide)
  {
  }

  lemma TradeOneMore<F(!new)>(p: Prims<F>, fs: seq<Field>)
    requires fs != []
    ensures Sensible(p, fs[|fs| - 1]) ==>
      ApplyTrade(p, TradeSoFar(p, fs[..|fs| - 1]), fs[|fs| - 1]) == Ok(TradeSoFar(p, fs))
  {
  }

  /** A list of fields is read as a trade exactly if every text is readable, every side is one of the
      two, and all six fields occur; the last one of each counts. Otherwise the first field that is not
      so is the error, or else that something is missing. */
  lemma TradeMeaning<F(!new)>(p: Prims<F>, fs: seq<Field>)
    requires forall i :: 0 <= i < |fs| ==> WellSized(fs[i])
    ensures
      var r := DeserializeTrade(p, WriteFields(fs));
      && (r.Ok? <==>
          && AllSensible(p, fs) && LastNamed(p, fs, 1).Some? && LastFixed(p, fs, 2).Some?
          && LastFixed(p, fs, 3).Some? && LastNumber(fs, 4).Some? && LastNamed(p, fs, 5).Some? && LastSide(p, fs).Some?)
      && (r.Ok? ==>
          && Some(r.value.symbol) == LastNamed(p, fs, 1) && Some(r.value.price) == LastFixed(p, fs, 2)
          && Some(r.value.size) == LastFixed(p, fs, 3) && Some(r.value.timestamp) == LastNumber(fs, 4)
          && Some(r.value.tradeId) == LastNamed(p, fs, 5) && Some(r.value.side) == LastSide(p, fs))
      && (r.Error? ==> r.fault == if TradeFault(p, fs).Some? then TradeFault(p, fs).value else Incomplete)
  {
    hide WriteFields, ReadTrade, FoldTrade, WellSized, AllSensible, LastNamed, LastFixed, LastNumber, LastSide;
    hide TradeFault;
    var body := WriteFields(fs);
    assert body[0..] == body;
    ReadIsFold(p, body, 0, fs, NoTrade());
    FoldTradeIs(p, fs);
  }

  // ---- quotes ----

  lemma {:induction false} FoldQuoteSnoc<F(!new)>(p: Prims<F>, fs: seq<Field>, f: Field, acc: QuoteAcc<F>)
    ensures FoldQuote(p, fs + [f], acc) ==
      var r := FoldQuote(p, fs, acc);
      if r.Ok? then ApplyQuote(p, r.value, f) else r
    decreases |fs|
  {
    hide ApplyQuote;
    var all := fs + [f];
    if fs == [] {
      assert all == [f] && all[1..] == [];
    } else {
      assert all[0] == fs[0] && all[1..] == fs[1..] + [f];
      var next := ApplyQuote(p, acc, fs[0]);
      if next.Ok? {
        FoldQuoteSnoc(p, fs[1..], f, next.value);
      }
    }
  }

  function QuoteNow<F(!new)>(p: Prims<F>, fs: seq<Field>): QuoteAcc<F> {
    QuoteAcc(LastOfAll(p, fs), LastFixed(p, fs, 2), LastFixed(p, fs, 3), LastFixed(p, fs, 4), LastFixed(p, fs, 5),
             LastNumber(fs, 6))
  }

  lemma {:induction false} FoldQuoteIs<F(!new)>(p: Prims<F>, fs: seq<Field>)
    ensures var r := FoldQuote(p, fs, NoQuote());
      && (r.Ok? <==> AllReadable(p, fs)) && (r.Ok? ==> r.value == QuoteNow(p, fs))
      && (r.Error? ==> r.fault == BadText)
    decreases |fs|
  {
    if fs != [] {
      var n := |fs| - 1;
      FoldQuoteIs(p, fs[..n]);
      FoldQuoteSnoc(p, fs[..n], fs[n], NoQuote());
      assert fs == fs[..n] + [fs[n]];
      QuoteOneMore(p, fs);
    }
  }

  lemma QuoteOneMore<F(!new)>(p: Prims<F>, fs: seq<Field>)
    requires fs != []
    ensures
      var f, r := fs[|fs| - 1], ApplyQuote(p, QuoteNow(p, fs[..|fs| - 1]), fs[|fs| - 1]);
      if f.Delimited? && p.decode(f.raw).None? then r == Error(BadText) else r == Ok(QuoteNow(p, fs))
  {
  }

  /** A list of fields is read as a quote exactly if every text is readable and all five numbers and
      some text occur; the last one of each counts, whatever the number of the text. */
  lemma QuoteMeaning<F(!new)>(p: Prims<F>, fs: seq<Field>)
    requires forall i :: 0 <= i < |fs| ==> WellSized(fs[i])
    ensures
      var r := DeserializeQuote(p, WriteFields(fs));
      && (r.Ok? <==>
          && AllReadable(p, fs) && LastOfAll(p, fs).Some? && LastFixed(p, fs, 2).Some? && LastFixed(p, fs, 3).Some?
          && LastFixed(p, fs, 4).Some? && LastFixed(p, fs, 5).Some? && LastNumber(fs, 6).Some?)
      && (r.Ok? ==>
          && Some(r.value.symbol) == LastOfAll(p, fs)
          && Some(r.value.bidPrice) == LastFixed(p, fs, 2) && Some(r.value.bidSize) == LastFixed(p, fs, 3)
          && Some(r.value.askPrice) == LastFixed(p, fs, 4) && Some(r.value.askSize) == LastFixed(p, fs, 5)
          && Some(r.value.timestamp) == LastNumber(fs, 6))
      && (r.Error? ==> r.fault == if AllReadable(p, fs) then Incomplete else BadText)
  {
    hide WriteFields, ReadQuote, FoldQuote, WellSized, AllReadable, LastOfAll, LastFixed, LastNumber;
    var body := WriteFields(fs);
    assert body[0..] == body;
    ReadQuoteIsFold(p, body, 0, fs, NoQuote());
    FoldQuoteIs(p, fs);
  }
}
