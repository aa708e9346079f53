/** Price-time priority matching of src/execution/matching_engine.py, on values: what one
    submission does, and what every run of submissions keeps. */
module MatchingSpec {
  import opened Options
  import opened Reals

  datatype Side = Buy | Sell

  /** A resting order with the sequence number it was given. */
  datatype Entry = Entry(id: string, price: real, ts: real, seqNo: nat, remaining: real)

  datatype Trade = Trade(price: real, quantity: real, maker: string, taker: string, timestamp: Option<real>)

  /** An incoming priced order. */
  datatype Request = Request(id: string, symbol: string, side: Side, price: real, quantity: real,
                             remaining: real, timestamp: Option<real>)

  function SortTs(t: Option<real>): real {
    if t.None? then 0.0 else t.value
  }

  /** The order of the two sort keys: better price, then earlier time, then lower sequence. */
  predicate Ahead(side: Side, a: Entry, b: Entry) {
    || (if side.Buy? then a.price > b.price else a.price < b.price)
    || (a.price == b.price && (a.ts < b.ts || (a.ts == b.ts && a.seqNo < b.seqNo)))
  }

  predicate Ordered(side: Side, s: seq<Entry>) {
    forall i, j :: 0 <= i < j < |s| ==> Ahead(side, s[i], s[j])
  }

  predicate Positive(s: seq<Entry>) {
    forall i :: 0 <= i < |s| ==> s[i].remaining > 0.0 && s[i].price > 0.0
  }

  /** The taker's limit allows trading at this maker price. */
  predicate Crosses(side: Side, limit: real, makerPrice: real) {
    if side.Buy? then limit >= makerPrice else limit <= makerPrice
  }

  function Total(s: seq<Entry>): real {
    if s == [] then 0.0 else s[0].remaining + Total(s[1..])
  }

  function Traded(ts: seq<Trade>): real {
    if ts == [] then 0.0 else ts[0].quantity + Traded(ts[1..])
  }

  // ---- the matching loop ----

  datatype Filling = Filling(trades: seq<Trade>, makers: seq<Entry>, remaining: real)

  function TradeOf(r: Request, m: Entry, quantity: real): Trade {
    Trade(m.price, quantity, m.id, r.id, r.timestamp)
  }

  function Fill(r: Request, remaining: real, makers: seq<Entry>): Filling
    decreases |makers|
  {
    if remaining > 0.0 && makers != [] && Crosses(r.side, r.price, makers[0].price) then
      var m := makers[0];
      var q := Min(remaining, m.remaining);
      if m.remaining - q == 0.0 then
        var f := Fill(r, remaining - q, makers[1..]);
        f.(trades := [TradeOf(r, m, q)] + f.trades)
      else
        Filling([TradeOf(r, m, q)], [m.(remaining := m.remaining - q)] + makers[1..], remaining - q)
    else Filling([], makers, remaining)
  }

  lemma FillStep(r: Request, remaining: real, makers: seq<Entry>)
    ensures remaining > 0.0 && makers != [] && Crosses(r.side, r.price, makers[0].price) ==>
        var m := makers[0];
        var q := Min(remaining, m.remaining);
        var f := if m.remaining - q == 0.0 then Fill(r, remaining - q, makers[1..])
                 else Filling([], [m.(remaining := m.remaining - q)] + makers[1..], remaining - q);
        Fill(r, remaining, makers) == f.(trades := [TradeOf(r, m, q)] + f.trades)
    ensures !(remaining > 0.0 && makers != [] && Crosses(r.side, r.price, makers[0].price)) ==>
      Fill(r, remaining, makers) == Filling([], makers, remaining)
  {
  }

  /** Trade i is with the i-th maker in priority order, at that maker's price and within the
      taker's limit, for what the earlier makers left of the taker. */
  lemma {:induction false} TradeAt(r: Request, remaining: real, makers: seq<Entry>, i: nat)
    requires Positive(makers) && i < |Fill(r, remaining, makers).trades|
    ensures i < |makers| && Crosses(r.side, r.price, makers[i].price)
    ensures
      var q := Min(makers[i].remaining, remaining - Total(makers[..i]));
      var t := Fill(r, remaining, makers).trades[i];
      t == TradeOf(r, makers[i], q) && t.quantity == q > 0.0 && TradesWith(t, r, makers[i])
    decreases |makers|
  {
    var m := makers[0];
    var q := Min(remaining, m.remaining);
    if i > 0 {
      TradeAt(r, remaining - q, makers[1..], i - 1);
      assert makers[..i][1..] == makers[1..][..i - 1];
    }
  }

  /** Matching stops only because the taker is filled, the side is empty, or the next maker is
      outside the limit; only the last maker can survive, partly filled. */
  lemma {:induction false} FillStops(r: Request, remaining: real, makers: seq<Entry>)
    requires Positive(makers) && remaining >= 0.0
    ensures
      var f := Fill(r, remaining, makers);
      var n := |f.trades|;
      && n <= |makers| && f.remaining >= 0.0
      && (f.remaining > 0.0 && n < |makers| ==> !Crosses(r.side, r.price, makers[n].price))
      && (f.makers == makers[n..]
          || (n > 0 && f.remaining == 0.0 && 0.0 < f.trades[n-1].quantity < makers[n-1].remaining
              && f.makers == [makers[n-1].(remaining := makers[n-1].remaining - f.trades[n-1].quantity)] + makers[n..]))
    decreases |makers|
  {
    if remaining > 0.0 && makers != [] && Crosses(r.side, r.price, makers[0].price) {
      var q := Min(remaining, makers[0].remaining);
      if makers[0].remaining - q == 0.0 {
        var rest := Fill(r, remaining - q, makers[1..]);
        FillStops(r, remaining - q, makers[1..]);
        var n := |rest.trades|;
        var f := Fill(r, remaining, makers);
        assert f.trades[1..] == rest.trades && f.makers == rest.makers && |f.trades| == n + 1;
        assert n > 0 ==> f.trades[n] == rest.trades[n - 1];
        assert makers[1..][n..] == makers[n + 1..];
      }
    }
  }

  /** A trade of the taker with maker m: at the maker's price, under both names, with the taker's
      time. */
  predicate TradesWith(t: Trade, r: Request, m: Entry) {
    t.price == m.price && t.maker == m.id && t.taker == r.id && t.timestamp == r.timestamp
  }

  /** The two lemmas above and conservation together, which fix the result completely. */
  ghost predicate PriorityPrefix(r: Request, remaining: real, makers: seq<Entry>, f: Filling) {
    var n := |f.trades|;
    && n <= |makers| && f.remaining == remaining - Traded(f.trades) && f.remaining >= 0.0
    && Total(makers) - Total(f.makers) == Traded(f.trades)
    && (forall i :: 0 <= i < n ==>
          && Crosses(r.side, r.price, makers[i].price) && TradesWith(f.trades[i], r, makers[i])
          && f.trades[i].quantity == Min(makers[i].remaining, remaining - Total(makers[..i])) > 0.0)
    && (f.remaining > 0.0 && n < |makers| ==> !Crosses(r.side, r.price, makers[n].price))
    && (f.makers == makers[n..]
        || (n > 0 && f.remaining == 0.0 && 0.0 < f.trades[n-1].quantity < makers[n-1].remaining
            && f.makers == [makers[n-1].(remaining := makers[n-1].remaining - f.trades[n-1].quantity)] + makers[n..]))
  }

  lemma FillIsPriorityPrefix(r: Request, remaining: real, makers: seq<Entry>)
    requires Positive(makers) && remaining >= 0.0
    ensures PriorityPrefix(r, remaining, makers, Fill(r, remaining, makers))
  {
    hide Fill, Total, Traded;
    var f := Fill(r, remaining, makers);
    FillStops(r, remaining, makers);
    FillConserves(r, remaining, makers);
    forall i | 0 <= i < |f.trades|
      ensures Crosses(r.side, r.price, makers[i].price) && TradesWith(f.trades[i], r, makers[i])
      ensures f.trades[i].quantity == Min(makers[i].remaining, remaining - Total(makers[..i])) > 0.0
    {
      TradeAt(r, remaining, makers, i);
    }
  }

  /** Quantity is neither made nor lost: what trades is what the taker and the makers lose. */
  lemma {:induction false} FillConserves(r: Request, remaining: real, makers: seq<Entry>)
    requires Positive(makers) && remaining >= 0.0
    ensures
      var f := Fill(r, remaining, makers);
      remaining - f.remaining == Traded(f.trades) == Total(makers) - Total(f.makers)
    decreases |makers|
  {
    if remaining > 0.0 && makers != [] && Crosses(r.side, r.price, makers[0].price) {
      var m := makers[0];
      var q := Min(remaining, m.remaining);
      var f := Fill(r, remaining, makers);
      if m.remaining - q == 0.0 {
        FillConserves(r, remaining - q, makers[1..]);
        assert f.trades[1..] == Fill(r, remaining - q, makers[1..]).trades;
      } else {
        assert f.makers[1..] == makers[1..] && f.trades[1..] == [];
      }
    }
  }

  lemma {:induction false} TotalConcat(a: seq<Entry>, b: seq<Entry>)
    ensures Total(a + b) == Total(a) + Total(b)
    decreases |a|
  {
    if a == [] {
      assert a + b == b;
    } else {
      assert (a + b)[1..] == a[1..] + b;
      TotalConcat(a[1..], b);
    }
  }

  lemma {:induction false} TradedAtMost(ts: seq<Trade>, makers: seq<Entry>)
    requires |ts| == |makers| && forall i :: 0 <= i < |ts| ==> ts[i].quantity <= makers[i].remaining
    ensures Traded(ts) <= Total(makers)
    ensures |ts| > 0 && ts[|ts|-1].quantity < makers[|ts|-1].remaining ==> Traded(ts) < Total(makers)
    decreases |ts|
  {
    if ts != [] {
      TradedAtMost(ts[1..], makers[1..]);
    }
  }

  /** A filling that meets the declarative reading cannot stop before another one does. */
  lemma NotShorter(r: Request, remaining: real, makers: seq<Entry>, f: Filling, g: Filling)
    requires PriorityPrefix(r, remaining, makers, f) && PriorityPrefix(r, remaining, makers, g)
    ensures |f.trades| >= |g.trades|
  {
    hide Traded, Total;
    var n := |f.trades|;
    if n < |g.trades| {
      TradedAtMost(f.trades, makers[..n]);
    }
  }

  /** The declarative reading determines the outcome: the loop computes the only one. */
  lemma PriorityPrefixUnique(r: Request, remaining: real, makers: seq<Entry>, f: Filling)
    requires Positive(makers) && remaining >= 0.0
    ensures PriorityPrefix(r, remaining, makers, f) <==> f == Fill(r, remaining, makers)
  {
    hide Fill, Traded, Total;
    FillIsPriorityPrefix(r, remaining, makers);
    if PriorityPrefix(r, remaining, makers, f) {
      var g := Fill(r, remaining, makers);
      NotShorter(r, remaining, makers, f, g);
      NotShorter(r, remaining, makers, g, f);
      assert f.trades == g.trades;
      var n := |f.trades|;
      TradedAtMost(f.trades, makers[..n]);
      TotalConcat(makers[..n], makers[n..]);
      assert makers[..n] + makers[n..] == makers;
    }
  }

  /** What the taker can rely on: the trades are with the makers from the front, each at the
      maker's own price and no worse than the taker's limit, and all but the last take the maker's
      whole quantity. */
  predicate FairTrades(r: Request, makers: seq<Entry>, trades: seq<Trade>) {
    && |trades| <= |makers|
    && (forall i :: 0 <= i < |trades| ==>
          && TradesWith(trades[i], r, makers[i]) && 0.0 < trades[i].quantity <= makers[i].remaining
          && (i < |trades| - 1 ==> trades[i].quantity == makers[i].remaining)
          && (if r.side == Buy then trades[i].price <= r.price else trades[i].price >= r.price))
  }

  lemma FillIsFair(r: Request, remaining: real, makers: seq<Entry>)
    requires Positive(makers) && remaining >= 0.0
    ensures FairTrades(r, makers, Fill(r, remaining, makers).trades)
  {
    hide Fill, Traded, Total;
    FillIsPriorityPrefix(r, remaining, makers);
    var f := Fill(r, remaining, makers);
    forall i | 0 <= i < |f.trades| - 1
      ensures f.trades[i].quantity == makers[i].remaining
    {
      TotalUpTo(makers, i);
      assert f.trades[i + 1].quantity > 0.0;
    }
  }

  lemma TotalUpTo(s: seq<Entry>, i: nat)
    requires i < |s|
    ensures Total(s[..i + 1]) == Total(s[..i]) + s[i].remaining
  {
    assert s[..i + 1] == s[..i] + [s[i]];
    TotalConcat(s[..i], [s[i]]);
  }

  /** Reading a side from the front: bids fall and asks rise in price, orders of one price come in
      the order of their times, and those of one time in the order of their arrival. */
  lemma BestFirst(side: Side, s: seq<Entry>, i: nat, j: nat)
    requires Ordered(side, s) && i < j < |s|
    ensures side == Buy ==> s[i].price >= s[j].price
    ensures side == Sell ==> s[i].price <= s[j].price
    ensures s[i].price == s[j].price ==> s[i].ts <= s[j].ts
    ensures s[i].price == s[j].price && s[i].ts == s[j].ts ==> s[i].seqNo < s[j].seqNo
  {
    assert Ahead(side, s[i], s[j]);
  }

  predicate Beyond(side: Side, limit: real, s: seq<Entry>) {
    forall i :: 0 <= i < |s| ==> if side == Buy then s[i].price > limit else s[i].price < limit
  }

  /** A taker that is not filled rests with what is left of its quantity and faces only prices
      beyond its limit; a filled one does not rest. */
  lemma RestsBeyond(symbol: string, b: Book, r: Request)
    requires Sound(b) && Accepted(symbol, b, r) && r.remaining >= 0.0
    ensures
      var (after, trades) := Submit(symbol, b, r);
      var left := r.remaining - Traded(trades);
      var own, own' := if r.side == Buy then b.bids else b.asks, if r.side == Buy then after.bids else after.asks;
      var time := if r.timestamp.Some? then r.timestamp.value else 0.0;
      && left >= 0.0 && (left == 0.0 ==> own' == own) && after.ids == b.ids + {r.id} && after.seqNo == b.seqNo + 1
      && (left > 0.0 ==> Beyond(r.side, r.price, if r.side == Buy then after.asks else after.bids))
      && (left > 0.0 ==> multiset(own') == multiset(own) + multiset{Entry(r.id, r.price, time, b.seqNo + 1, left)})
  {
    hide Fill, Traded, Rested, Ordered, Positive;
    var makers := Opposite(b, r.side);
    var f := Fill(r, r.remaining, makers);
    FillConserves(r, r.remaining, makers);
    FillStops(r, r.remaining, makers);
    NothingCrosses(r, r.remaining, makers);
    RestedAdds(b, r, f.remaining);
  }

  lemma RestedAdds(b: Book, r: Request, left: real)
    ensures
      var own, time := if r.side == Buy then b.bids else b.asks, if r.timestamp.Some? then r.timestamp.value else 0.0;
      && (left <= 0.0 ==> Rested(b, r, left) == own)
      && (left > 0.0 ==>
          multiset(Rested(b, r, left)) == multiset(own) + multiset{Entry(r.id, r.price, time, b.seqNo + 1, left)})
  {
    hide Place;
    PlaceAdds(r.side, Own(b, r.side), Entry(r.id, r.price, SortTs(r.timestamp), b.seqNo + 1, left));
  }

  // ---- resting ----

  /** Where e goes in a sorted side: append followed by a sort on the key. */
  function Place(side: Side, s: seq<Entry>, e: Entry): seq<Entry> {
    if s == [] then [e]
    else if Ahead(side, e, s[0]) then [e] + s
    else [s[0]] + Place(side, s[1..], e)
  }

  lemma {:induction false} PlaceAdds(side: Side, s: seq<Entry>, e: Entry)
    ensures multiset(Place(side, s, e)) == multiset(s) + multiset{e}
    ensures forall x :: x in Place(side, s, e) ==> x == e || x in s
    decreases |s|
  {
    hide Ahead;
    if s != [] && !Ahead(side, e, s[0]) {
      PlaceAdds(side, s[1..], e);
      assert s == [s[0]] + s[1..];
    }
  }

  lemma AheadLaws(side: Side, a: Entry, b: Entry, c: Entry)
    ensures !Ahead(side, a, b) && b.seqNo < a.seqNo ==> Ahead(side, b, a)
    ensures Ahead(side, a, b) && Ahead(side, b, c) ==> Ahead(side, a, c)
  {}

  lemma OrderedCons(side: Side, h: Entry, t: seq<Entry>)
    requires Ordered(side, t) && forall i :: 0 <= i < |t| ==> Ahead(side, h, t[i])
    ensures Ordered(side, [h] + t)
  {
    hide Ahead;
  }

  lemma {:induction false} PlaceKeepsOrder(side: Side, s: seq<Entry>, e: Entry)
    requires Ordered(side, s) && forall i :: 0 <= i < |s| ==> s[i].seqNo < e.seqNo
    ensures Ordered(side, Place(side, s, e))
    ensures multiset(Place(side, s, e)) == multiset(s) + multiset{e}
    decreases |s|
  {
    hide Ahead;
    PlaceAdds(side, s, e);
    if s != [] && !Ahead(side, e, s[0]) {
      PlaceKeepsOrder(side, s[1..], e);
      PlaceAdds(side, s[1..], e);
      var p := Place(side, s[1..], e);
      AheadLaws(side, e, s[0], e);
      forall i | 0 <= i < |p|
        ensures Ahead(side, s[0], p[i])
      {
        assert p[i] in p;
      }
      OrderedCons(side, s[0], p);
    } else if s != [] {
      forall i | 0 <= i < |s|
        ensures Ahead(side, e, s[i])
      {
        AheadLaws(side, e, s[0], s[i]);
      }
      OrderedCons(side, e, s);
    }
  }

  lemma SameHead(side: Side, a: seq<Entry>, b: seq<Entry>)
    requires Ordered(side, a) && Ordered(side, b) && multiset(a) == multiset(b) && a != [] && b != []
    ensures a[0] == b[0]
  {
    assert a[0] in multiset(b) && b[0] in multiset(a);
    var k :| 0 <= k < |b| && b[k] == a[0];
    var j :| 0 <= j < |a| && a[j] == b[0];
  }

  /** A sorted arrangement is unique, so sorting after an append is the same as Place. */
  lemma {:induction false} OrderedUnique(side: Side, a: seq<Entry>, b: seq<Entry>)
    requires Ordered(side, a) && Ordered(side, b) && multiset(a) == multiset(b)
    ensures a == b
    decreases |a|
  {
    assert |a| == |multiset(a)| && |b| == |multiset(b)|;
    if a != [] {
      SameHead(side, a, b);
      assert a == [a[0]] + a[1..] && b == [b[0]] + b[1..];
      assert multiset(a[1..]) == multiset(a) - multiset{a[0]};
      assert multiset(b[1..]) == multiset(b) - multiset{b[0]};
      OrderedUnique(side, a[1..], b[1..]);
    }
  }

  lemma SortIsPlace(side: Side, s: seq<Entry>, e: Entry, sorted: seq<Entry>)
    requires Ordered(side, s) && forall i :: 0 <= i < |s| ==> s[i].seqNo < e.seqNo
    requires Ordered(side, sorted) && multiset(sorted) == multiset(s + [e])
    ensures sorted == Place(side, s, e)
  {
    PlaceKeepsOrder(side, s, e);
    OrderedUnique(side, sorted, Place(side, s, e));
  }

  lemma {:induction false} PlaceAt(side: Side, s: seq<Entry>, e: Entry, i: nat)
    requires i <= |s| && (forall j :: 0 <= j < i ==> !Ahead(side, e, s[j])) && (i < |s| ==> Ahead(side, e, s[i]))
    ensures Place(side, s, e) == s[..i] + [e] + s[i..]
    decreases |s|
  {
    if i > 0 {
      var rest := s[1..];
      PlaceAt(side, rest, e, i - 1);
      assert rest[i - 1..] == s[i..];
      assert s[..i] == [s[0]] + rest[..i - 1];
    }
  }

  lemma {:induction false} PlaceTotal(side: Side, s: seq<Entry>, e: Entry)
    ensures Total(Place(side, s, e)) == Total(s) + e.remaining
    decreases |s|
  {
    if s == [] {
    } else if Ahead(side, e, s[0]) {
      assert ([e] + s)[1..] == s;
    } else {
      PlaceTotal(side, s[1..], e);
    }
  }

  // ---- submissions ----

  datatype Book = Book(bids: seq<Entry>, asks: seq<Entry>, ids: set<string>, seqNo: nat)

  function Opposite(b: Book, side: Side): seq<Entry> {
    if side.Buy? then b.asks else b.bids
  }

  function Own(b: Book, side: Side): seq<Entry> {
    if side.Buy? then b.bids else b.asks
  }

  /** The checks of submit_order before anything changes. */
  predicate Accepted(symbol: string, b: Book, r: Request) {
    r.symbol == symbol && r.id !in b.ids && r.quantity > 0.0 && r.price > 0.0
  }

  function Rested(b: Book, r: Request, remaining: real): seq<Entry> {
    var e := Entry(r.id, r.price, SortTs(r.timestamp), b.seqNo + 1, remaining);
    if remaining > 0.0 then Place(r.side, Own(b, r.side), e) else Own(b, r.side)
  }

  function Submit(symbol: string, b: Book, r: Request): (Book, seq<Trade>) {
    if !Accepted(symbol, b, r) then (b, [])
    else
      var f := Fill(r, r.remaining, Opposite(b, r.side));
      var own := Rested(b, r, f.remaining);
      (Book(if r.side.Buy? then own else f.makers, if r.side.Buy? then f.makers else own,
            b.ids + {r.id}, b.seqNo + 1), f.trades)
  }

  predicate Known(s: seq<Entry>, ids: set<string>, seqNo: nat) {
    forall i :: 0 <= i < |s| ==> s[i].id in ids && s[i].seqNo <= seqNo
  }

  predicate UniqueIds(s: seq<Entry>) {
    forall i, j :: 0 <= i < j < |s| ==> s[i].id != s[j].id
  }

  /** Sorted sides of positive orders with distinct ids, and every bid below every ask. */
  predicate Sound(b: Book) {
    && Ordered(Buy, b.bids) && Ordered(Sell, b.asks) && Positive(b.bids) && Positive(b.asks)
    && Known(b.bids, b.ids, b.seqNo) && Known(b.asks, b.ids, b.seqNo)
    && UniqueIds(b.bids + b.asks)
    && forall i, j :: 0 <= i < |b.bids| && 0 <= j < |b.asks| ==> b.bids[i].price < b.asks[j].price
  }

  /** A fill leaves a suffix of the side, with at most its head reduced. */
  lemma FillKeepsSide(r: Request, remaining: real, makers: seq<Entry>)
    requires Positive(makers) && remaining >= 0.0
    ensures
      var f := Fill(r, remaining, makers);
      && |f.makers| <= |makers| && Positive(f.makers)
      && forall i :: 0 <= i < |f.makers| ==>
           var m := makers[|makers| - |f.makers| + i];
           m.remaining >= f.makers[i].remaining && f.makers[i] == m.(remaining := f.makers[i].remaining)
  {
    hide Fill;
    FillStops(r, remaining, makers);
  }

  /** Once the taker still has quantity left, nothing on the other side is within its limit. */
  lemma NothingCrosses(r: Request, remaining: real, makers: seq<Entry>)
    requires Positive(makers) && remaining >= 0.0
    requires Ordered(if r.side.Buy? then Sell else Buy, makers)
    ensures
      var f := Fill(r, remaining, makers);
      f.remaining > 0.0 ==> forall i :: 0 <= i < |f.makers| ==> !Crosses(r.side, r.price, f.makers[i].price)
  {
    FillIsPriorityPrefix(r, remaining, makers);
    var f := Fill(r, remaining, makers);
    if f.remaining > 0.0 {
      var n := |f.trades|;
      assert f.makers == makers[n..];
      forall i | 0 <= i < |f.makers|
        ensures !Crosses(r.side, r.price, f.makers[i].price)
      {
        assert f.makers[i] == makers[n + i];
      }
    }
  }

  lemma {:induction false} PlaceMembers(side: Side, s: seq<Entry>, e: Entry, i: nat) returns (k: int)
    requires i < |Place(side, s, e)|
    ensures -1 <= k < |s| && Place(side, s, e)[i] == (if k == -1 then e else s[k])
    decreases |s|
  {
    if s == [] {
      k := -1;
    } else if Ahead(side, e, s[0]) {
      k := i - 1;
    } else if i == 0 {
      k := 0;
    } else {
      k := PlaceMembers(side, s[1..], e, i - 1);
      k := if k == -1 then -1 else k + 1;
    }
  }

  lemma {:induction false} PlaceUnique(side: Side, s: seq<Entry>, e: Entry)
    requires UniqueIds(s) && forall i :: 0 <= i < |s| ==> s[i].id != e.id
    ensures UniqueIds(Place(side, s, e))
    decreases |s|
  {
    if s != [] && !Ahead(side, e, s[0]) {
      PlaceUnique(side, s[1..], e);
      var p := Place(side, s[1..], e);
      forall i | 0 <= i < |p|
        ensures p[i].id != s[0].id
      {
        var k := PlaceMembers(side, s[1..], e, i);
      }
    }
  }

  /** The side that was matched against is still sorted, and its ids are some of the old ones. */
  lemma FilledSide(r: Request, remaining: real, makers: seq<Entry>, side: Side)
    requires Positive(makers) && Ordered(side, makers) && remaining >= 0.0
    ensures
      var f := Fill(r, remaining, makers);
      Ordered(side, f.makers) && Positive(f.makers) && f.remaining >= 0.0
  {
    hide Fill;
    var f := Fill(r, remaining, makers);
    FillKeepsSide(r, remaining, makers);
    FillStops(r, remaining, makers);
    var d := |makers| - |f.makers|;
    forall i, j | 0 <= i < j < |f.makers|
      ensures Ahead(side, f.makers[i], f.makers[j])
    {
      assert Ahead(side, makers[d + i], makers[d + j]);
    }
  }

  lemma RestedSide(b: Book, r: Request, remaining: real)
    requires Sound(b) && r.id !in b.ids && r.price > 0.0 && remaining >= 0.0
    ensures
      var own := Rested(b, r, remaining);
      Ordered(r.side, own) && Positive(own) && Known(own, b.ids + {r.id}, b.seqNo + 1) && UniqueIds(own)
  {
    var own, s := Rested(b, r, remaining), Own(b, r.side);
    var e := Entry(r.id, r.price, SortTs(r.timestamp), b.seqNo + 1, remaining);
    OwnUnique(b, r.side);
    if remaining > 0.0 {
      PlaceKeepsOrder(r.side, s, e);
      PlaceUnique(r.side, s, e);
      forall i | 0 <= i < |own|
        ensures own[i].remaining > 0.0 && own[i].price > 0.0 && own[i].id in b.ids + {r.id}
        ensures own[i].seqNo <= b.seqNo + 1
      {
        var k := PlaceMembers(r.side, s, e, i);
      }
    }
  }

  lemma OwnUnique(b: Book, side: Side)
    requires UniqueIds(b.bids + b.asks)
    ensures UniqueIds(Own(b, side))
  {
    UniqueParts(b.bids, b.asks);
  }

  lemma UniqueParts(x: seq<Entry>, y: seq<Entry>)
    requires UniqueIds(x + y)
    ensures UniqueIds(x) && UniqueIds(y)
  {
    var all := x + y;
    forall i, j | 0 <= i < j < |x|
      ensures x[i].id != x[j].id
    {
      assert all[i] == x[i] && all[j] == x[j];
    }
    forall i, j | 0 <= i < j < |y|
      ensures y[i].id != y[j].id
    {
      assert all[|x| + i] == y[i] && all[|x| + j] == y[j];
    }
  }

  /** Each entry of a side after a submission has the id and price of an old entry, or is the
      rested taker. */
  lemma Origins(b: Book, r: Request, remaining: real, i: nat) returns (k: int)
    requires i < |Rested(b, r, remaining)|
    ensures -1 <= k < |Own(b, r.side)|
    ensures Rested(b, r, remaining)[i].id == if k == -1 then r.id else Own(b, r.side)[k].id
    ensures Rested(b, r, remaining)[i].price == if k == -1 then r.price else Own(b, r.side)[k].price
    ensures k == -1 ==> remaining > 0.0
  {
    if remaining > 0.0 {
      var e := Entry(r.id, r.price, SortTs(r.timestamp), b.seqNo + 1, remaining);
      k := PlaceMembers(r.side, Own(b, r.side), e, i);
    } else {
      k := i;
    }
  }

  /** The two sides stay apart: no shared id, and every bid below every ask. */
  lemma SidesApart(b: Book, r: Request, i: nat, j: nat)
    requires Sound(b) && r.id !in b.ids && r.price > 0.0 && r.remaining >= 0.0
    requires
      var f := Fill(r, r.remaining, Opposite(b, r.side));
      i < |Rested(b, r, f.remaining)| && j < |f.makers|
    ensures
      var f := Fill(r, r.remaining, Opposite(b, r.side));
      var mine, theirs := Rested(b, r, f.remaining)[i], f.makers[j];
      mine.id != theirs.id && if r.side.Buy? then mine.price < theirs.price else theirs.price < mine.price
  {
    hide Fill;
    var makers := Opposite(b, r.side);
    var f := Fill(r, r.remaining, makers);
    FillKeepsSide(r, r.remaining, makers);
    var m := makers[|makers| - |f.makers| + j];
    var k := Origins(b, r, f.remaining, i);
    if k == -1 {
      NothingCrosses(r, r.remaining, makers);
    } else {
      var all := b.bids + b.asks;
      var x, y := if r.side.Buy? then k else |b.bids| + k,
                  if r.side.Buy? then |b.bids| + (|makers| - |f.makers| + j) else |makers| - |f.makers| + j;
      assert all[x] == Own(b, r.side)[k] && all[y] == m;
    }
  }

  /** Every submission keeps the book sound. */
  lemma SubmitSound(symbol: string, b: Book, r: Request)
    requires Sound(b) && r.remaining >= 0.0
    ensures Sound(Submit(symbol, b, r).0)
  {
    hide Fill, Rested;
    if Accepted(symbol, b, r) {
      var makers := Opposite(b, r.side);
      var f := Fill(r, r.remaining, makers);
      FilledSide(r, r.remaining, makers, if r.side.Buy? then Sell else Buy);
      FillKeepsSide(r, r.remaining, makers);
      RestedSide(b, r, f.remaining);
      var own, b' := Rested(b, r, f.remaining), Submit(symbol, b, r).0;
      FilledUnique(b, r);
      forall i, j | 0 <= i < |own| && 0 <= j < |f.makers|
        ensures own[i].id != f.makers[j].id
        ensures if r.side.Buy? then own[i].price < f.makers[j].price else f.makers[j].price < own[i].price
      {
        SidesApart(b, r, i, j);
      }
      UniqueJoin(b'.bids, b'.asks);
    }
  }

  lemma FilledUnique(b: Book, r: Request)
    requires Sound(b) && r.remaining >= 0.0
    ensures UniqueIds(Fill(r, r.remaining, Opposite(b, r.side)).makers)
  {
    hide Fill;
    var makers := Opposite(b, r.side);
    var f := Fill(r, r.remaining, makers);
    FillKeepsSide(r, r.remaining, makers);
    OwnUnique(b, if r.side.Buy? then Sell else Buy);
    var d := |makers| - |f.makers|;
    forall i, j | 0 <= i < j < |f.makers|
      ensures f.makers[i].id != f.makers[j].id
    {
      assert makers[d + i].id != makers[d + j].id;
    }
  }

  lemma UniqueJoin(a: seq<Entry>, b: seq<Entry>)
    requires UniqueIds(a) && UniqueIds(b)
    requires forall i, j :: 0 <= i < |a| && 0 <= j < |b| ==> a[i].id != b[j].id
    ensures UniqueIds(a + b)
  {
  }

  // ---- whole runs ----

  function Run(symbol: string, rs: seq<Request>): Book {
    if rs == [] then Book([], [], {}, 0) else Submit(symbol, Run(symbol, rs[..|rs|-1]), rs[|rs|-1]).0
  }

  /** All trades of a run, in the order they happened. */
  function Tape(symbol: string, rs: seq<Request>): seq<Trade> {
    if rs == [] then []
    else Tape(symbol, rs[..|rs|-1]) + Submit(symbol, Run(symbol, rs[..|rs|-1]), rs[|rs|-1]).1
  }

  /** The quantity that accepted orders brought in. */
  function Offered(symbol: string, rs: seq<Request>): real {
    if rs == [] then 0.0
    else
      var r := rs[|rs|-1];
      Offered(symbol, rs[..|rs|-1]) + if Accepted(symbol, Run(symbol, rs[..|rs|-1]), r) then r.remaining else 0.0
  }

  lemma {:induction false} TradedConcat(a: seq<Trade>, b: seq<Trade>)
    ensures Traded(a + b) == Traded(a) + Traded(b)
    decreases |a|
  {
    if a == [] {
      assert a + b == b;
    } else {
      assert (a + b)[1..] == a[1..] + b;
      TradedConcat(a[1..], b);
    }
  }

  lemma SubmitConserves(symbol: string, b: Book, r: Request)
    requires Sound(b) && r.remaining >= 0.0 && Accepted(symbol, b, r)
    ensures
      var (b', ts) := Submit(symbol, b, r);
      Total(b'.bids) + Total(b'.asks) + 2.0 * Traded(ts) == Total(b.bids) + Total(b.asks) + r.remaining
  {
    hide Fill, Total, Traded;
    var f := Fill(r, r.remaining, Opposite(b, r.side));
    FillConserves(r, r.remaining, Opposite(b, r.side));
    FillStops(r, r.remaining, Opposite(b, r.side));
    if f.remaining > 0.0 {
      PlaceTotal(r.side, Own(b, r.side), Entry(r.id, r.price, SortTs(r.timestamp), b.seqNo + 1, f.remaining));
    }
  }

  /** Over every run: the book stays sound, and what was offered is what rests plus what
      traded, counted once for each of its two parties. */
  lemma {:induction false} RunSoundAndConserving(symbol: string, rs: seq<Request>)
    requires forall i :: 0 <= i < |rs| ==> rs[i].remaining >= 0.0
    ensures Sound(Run(symbol, rs))
    ensures Offered(symbol, rs)
         == Total(Run(symbol, rs).bids) + Total(Run(symbol, rs).asks) + 2.0 * Traded(Tape(symbol, rs))
    decreases |rs|
  {
    hide Sound, Total, Traded, Submit;
    if rs == [] {
      EmptyRun();
    } else {
      var before, r := rs[..|rs|-1], rs[|rs|-1];
      RunSoundAndConserving(symbol, before);
      var b := Run(symbol, before);
      SubmitSound(symbol, b, r);
      TradedConcat(Tape(symbol, before), Submit(symbol, b, r).1);
      if Accepted(symbol, b, r) {
        SubmitConserves(symbol, b, r);
      } else {
        Rejected(symbol, b, r);
      }
    }
  }

  lemma EmptyRun()
    ensures Sound(Book([], [], {}, 0)) && Total([]) == 0.0 && Traded([]) == 0.0
  {
  }

  lemma Rejected(symbol: string, b: Book, r: Request)
    requires !Accepted(symbol, b, r)
    ensures Submit(symbol, b, r) == (b, []) && Traded([]) == 0.0
  {
  }

}
