/** src/paper/portfolio_tracker.py: cash, positions and profit over any run of trades and price
    updates. */
module Portfolio {
  import opened Options
  import opened RealSums

  datatype Side = Long | Short

  datatype TradeSide = Buy | Sell

  /** An open position; quantity and entry price are positive, the current price is not negative. */
  datatype Position = Position(side: Side, quantity: real, entry: real, current: real)

  datatype Trade = Trade(symbol: string, side: TradeSide, quantity: real, price: real)

  /** What the tracker has seen. */
  datatype Event = Traded(trade: Trade) | Marked(symbol: string, price: real)

  predicate ValidPosition(p: Position) {
    p.quantity > 0.0 && p.entry > 0.0 && p.current >= 0.0
  }

  predicate ValidTrade(t: Trade) {
    t.quantity > 0.0 && t.price > 0.0
  }

  /** Positive for a long position, negative for a short one. */
  function SignedQuantity(p: Position): real {
    if p.side == Long then p.quantity else -p.quantity
  }

  function TradeQuantity(t: Trade): real {
    if t.side == Buy then t.quantity else -t.quantity
  }

  /** unrealized_pnl. */
  function Unrealized(p: Position): real {
    if p.side == Long then (p.current - p.entry) * p.quantity else (p.entry - p.current) * p.quantity
  }

  /** _calculate_realized_pnl. */
  function Realized(p: Position, closed: real, exit: real): real {
    if p.side == Long then (exit - p.entry) * closed else (p.entry - exit) * closed
  }

  // ---- what a run of events amounts to ----

  /** The sum of signed trade quantities in a symbol. */
  function Net(events: seq<Event>, symbol: string): real {
    if events == [] then 0.0
    else
      var e, rest := events[|events|-1], Net(events[..|events|-1], symbol);
      if e.Traded? && e.trade.symbol == symbol then rest + TradeQuantity(e.trade) else rest
  }

  /** Money paid for buys less money received for sells. */
  function Cost(events: seq<Event>): real {
    if events == [] then 0.0
    else
      var e, rest := events[|events|-1], Cost(events[..|events|-1]);
      if e.Traded? then rest + TradeQuantity(e.trade) * e.trade.price else rest
  }

  /** The last price seen in a symbol. */
  function LastPrice(events: seq<Event>, symbol: string): real {
    if events == [] then 0.0
    else
      var e, rest := events[|events|-1], LastPrice(events[..|events|-1], symbol);
      match e
      case Traded(t) => if t.symbol == symbol then t.price else rest
      case Marked(s, p) => if s == symbol then p else rest
  }

  /** What is left of an opening trade. */
  datatype Lot = Lot(quantity: real, price: real)

  function Size(net: real): real {
    if net < 0.0 then -net else net
  }

  /** The opening trades behind the net quantity: a trade on the same side adds a lot, one on the
      other side takes the same share of every lot, and one that reaches zero starts afresh. */
  function Lots(events: seq<Event>, symbol: string): seq<Lot> {
    if events == [] then []
    else
      var before := events[..|events|-1];
      var e, rest := events[|events|-1], Lots(before, symbol);
      if e.Traded? && e.trade.symbol == symbol then LotsAfter(rest, Net(before, symbol), e.trade) else rest
  }

  function LotsAfter(lots: seq<Lot>, net: real, t: Trade): seq<Lot> {
    if net == 0.0 then [Lot(t.quantity, t.price)]
    else if (net > 0.0) == (t.side == Buy) then lots + [Lot(t.quantity, t.price)]
    else if t.quantity < Size(net) then Scaled(lots, (Size(net) - t.quantity) / Size(net))
    else if t.quantity == Size(net) then []
    else [Lot(t.quantity - Size(net), t.price)]
  }

  function Scaled(lots: seq<Lot>, share: real): seq<Lot> {
    if lots == [] then [] else Scaled(lots[..|lots|-1], share) + [Lot(share * Last(lots).quantity, Last(lots).price)]
  }

  function Last(lots: seq<Lot>): Lot
    requires lots != []
  {
    lots[|lots|-1]
  }

  function LotQuantity(lots: seq<Lot>): real {
    if lots == [] then 0.0 else LotQuantity(lots[..|lots|-1]) + Last(lots).quantity
  }

  function LotCost(lots: seq<Lot>): real {
    if lots == [] then 0.0 else LotCost(lots[..|lots|-1]) + Last(lots).quantity * Last(lots).price
  }

  /** The position holds the quantity of the lots, and its entry price is their quantity-weighted
      average price. */
  predicate Averages(p: Option<Position>, lots: seq<Lot>) {
    if p.None? then lots == []
    else p.value.quantity == LotQuantity(lots) && p.value.quantity * p.value.entry == LotCost(lots)
  }

  // ---- one trade on one position ----

  function Lookup(ps: map<string, Position>, symbol: string): Option<Position> {
    if symbol in ps then Some(ps[symbol]) else None
  }

  function Signed(p: Option<Position>): real {
    if p.Some? then SignedQuantity(p.value) else 0.0
  }

  /** What the open quantity cost at its entry price. */
  function Basis(p: Option<Position>): real {
    if p.Some? then SignedQuantity(p.value) * p.value.entry else 0.0
  }

  function Opened(t: Trade, quantity: real): Position {
    Position(if t.side == Buy then Long else Short, quantity, t.price, t.price)
  }

  predicate Increases(p: Position, t: Trade) {
    (p.side == Long && t.side == Buy) || (p.side == Short && t.side == Sell)
  }

  /** The entry price of both quantities together. */
  function AverageEntry(x: Position, t: Trade): real
    requires ValidTrade(t) && ValidPosition(x)
  {
    (x.quantity * x.entry + t.quantity * t.price) / (x.quantity + t.quantity)
  }

  /** The position after the trade and the profit realized by it. */
  function AfterTrade(p: Option<Position>, t: Trade): (Option<Position>, real)
    requires ValidTrade(t) && (p.Some? ==> ValidPosition(p.value))
  {
    if p.None? then (Some(Opened(t, t.quantity)), 0.0)
    else
      var x := p.value;
      if Increases(x, t) then
        var quantity := x.quantity + t.quantity;
        (Some(Position(x.side, quantity, AverageEntry(x, t), t.price)), 0.0)
      else if t.quantity < x.quantity then
        (Some(x.(quantity := x.quantity - t.quantity, current := t.price)), Realized(x, t.quantity, t.price))
      else if t.quantity == x.quantity then (None, Realized(x, t.quantity, t.price))
      else (Some(Opened(t, t.quantity - x.quantity)), Realized(x, x.quantity, t.price))
  }

  lemma Products(a: real, b: real, c: real)
    ensures (a + b) * c == a * c + b * c && (a - b) * c == a * c - b * c && (-a) * c == -(a * c)
    ensures a * b == b * a
  {}

  lemma AverageTimes(n: real, d: real)
    requires d > 0.0
    ensures n / d * d == n && (n > 0.0 ==> n / d > 0.0)
  {}

  lemma PositiveProduct(a: real, b: real)
    requires a > 0.0 && b > 0.0
    ensures a * b > 0.0
  {}

  /** Whatever the trade does - open, increase, reduce, close or reverse - the signed quantity
      moves by the trade's, and realized profit is the change of basis less the money paid. */
  lemma TradeBalances(p: Option<Position>, t: Trade)
    requires ValidTrade(t) && (p.Some? ==> ValidPosition(p.value))
    ensures var (q, profit) := AfterTrade(p, t);
      && (q.Some? ==> ValidPosition(q.value) && q.value.current == t.price)
      && Signed(q) == Signed(p) + TradeQuantity(t)
      && profit == Basis(q) - Basis(p) - TradeQuantity(t) * t.price
  {
    Products(t.quantity, 0.0, t.price);
    if p.Some? {
      var x := p.value;
      Products(x.quantity, 0.0, x.entry);
      if Increases(x, t) {
        IncreaseBalances(x, t);
      } else if t.quantity <= x.quantity {
        Products(x.quantity, t.quantity, x.entry);
        Products(t.price, x.entry, t.quantity);
        Products(x.entry, t.price, t.quantity);
        Products(x.quantity - t.quantity, 0.0, x.entry);
        Products(t.quantity, x.entry, 0.0);
        Products(t.quantity, t.price, 0.0);
      } else {
        Products(t.quantity, x.quantity, t.price);
        Products(t.price, x.entry, x.quantity);
        Products(x.entry, t.price, x.quantity);
        Products(t.quantity - x.quantity, 0.0, t.price);
        Products(x.quantity, x.entry, 0.0);
        Products(x.quantity, t.price, 0.0);
      }
    }
  }

  lemma IncreaseBalances(x: Position, t: Trade)
    requires ValidTrade(t) && ValidPosition(x) && Increases(x, t)
    ensures var (q, profit) := AfterTrade(Some(x), t);
      q.Some? && ValidPosition(q.value) && profit == Basis(q) - Basis(Some(x)) - TradeQuantity(t) * t.price
  {
    var quantity, paid := x.quantity + t.quantity, x.quantity * x.entry + t.quantity * t.price;
    PositiveProduct(x.quantity, x.entry);
    PositiveProduct(t.quantity, t.price);
    AverageTimes(paid, quantity);
    Products(quantity, paid / quantity, 0.0);
    Products(quantity, 0.0, paid / quantity);
    Products(x.quantity, 0.0, x.entry);
    Products(t.quantity, 0.0, t.price);
  }

  lemma {:induction false} ScaledSums(lots: seq<Lot>, share: real)
    ensures LotQuantity(Scaled(lots, share)) == share * LotQuantity(lots)
    ensures LotCost(Scaled(lots, share)) == share * LotCost(lots)
  {
    if lots != [] {
      var before, l := lots[..|lots|-1], Last(lots);
      ScaledSums(before, share);
      var scaled := Scaled(lots, share);
      assert scaled[..|scaled|-1] == Scaled(before, share) && Last(scaled) == Lot(share * l.quantity, l.price);
      ShareOut(share, LotQuantity(before), l.quantity);
      ShareOut(share, LotCost(before), l.quantity * l.price);
      Regroup(share, l.quantity, l.price);
    }
  }

  lemma ShareOut(f: real, a: real, b: real)
    ensures f * (a + b) == f * a + f * b
  {}

  lemma Regroup(f: real, a: real, b: real)
    ensures (f * a) * b == f * (a * b)
  {}

  lemma OneLot(lots: seq<Lot>, l: Lot)
    ensures LotQuantity(lots + [l]) == LotQuantity(lots) + l.quantity
    ensures LotCost(lots + [l]) == LotCost(lots) + l.quantity * l.price
  {
    assert (lots + [l])[..|lots|] == lots;
  }

  /** A trade moves the position as it moves the lots. */
  lemma TradeAverages(p: Option<Position>, t: Trade, lots: seq<Lot>)
    requires ValidTrade(t) && (p.Some? ==> ValidPosition(p.value)) && Averages(p, lots)
    ensures Averages(AfterTrade(p, t).0, LotsAfter(lots, Signed(p), t))
  {
    hide LotQuantity, LotCost, Scaled;
    OneLot([], Lot(t.quantity, t.price));
    NoLots();
    if p.Some? {
      var x := p.value;
      if Increases(x, t) {
        OneLot(lots, Lot(t.quantity, t.price));
        IncreaseAverages(x, t);
      } else if t.quantity < x.quantity {
        ReduceAverages(x, t, lots);
      } else if t.quantity > x.quantity {
        OneLot([], Lot(t.quantity - x.quantity, t.price));
      }
    }
  }

  lemma NoLots()
    ensures LotQuantity([]) == 0.0 && LotCost([]) == 0.0
    ensures forall l: Lot :: [] + [l] == [l]
  {
  }

  lemma IncreaseAverages(x: Position, t: Trade)
    requires ValidTrade(t) && ValidPosition(x)
    ensures (x.quantity + t.quantity) * AverageEntry(x, t) == x.quantity * x.entry + t.quantity * t.price
  {
    var quantity, paid := x.quantity + t.quantity, x.quantity * x.entry + t.quantity * t.price;
    AverageTimes(paid, quantity);
    Products(quantity, paid / quantity, 0.0);
  }

  /** A reduction keeps the entry price: every lot loses the same share. */
  lemma ReduceAverages(x: Position, t: Trade, lots: seq<Lot>)
    requires ValidTrade(t) && ValidPosition(x) && t.quantity < x.quantity && Averages(Some(x), lots)
    ensures
      var scaled := Scaled(lots, (x.quantity - t.quantity) / x.quantity);
      LotQuantity(scaled) == x.quantity - t.quantity && LotCost(scaled) == (x.quantity - t.quantity) * x.entry
  {
    hide LotQuantity, LotCost, Scaled;
    var left := x.quantity - t.quantity;
    var share := left / x.quantity;
    ScaledSums(lots, share);
    AverageTimes(left, x.quantity);
    Regroup(share, x.quantity, x.entry);
  }

  // ---- all positions ----

  ghost function Bases(ps: map<string, Position>): string -> real {
    (s: string) => Basis(Lookup(ps, s))
  }

  ghost function Profits(ps: map<string, Position>): string -> real {
    (s: string) => if s in ps then Unrealized(ps[s]) else 0.0
  }

  /** Net quantity times last price. */
  ghost function Values(events: seq<Event>): string -> real {
    (s: string) => Net(events, s) * LastPrice(events, s)
  }

  function Put(ps: map<string, Position>, symbol: string, p: Option<Position>): map<string, Position> {
    if p.Some? then ps[symbol := p.value] else ps - {symbol}
  }

  /** Changing one position changes the total basis by that position's basis. */
  lemma BasesPut(ps: map<string, Position>, symbol: string, p: Option<Position>)
    ensures var qs := Put(ps, symbol, p);
      Sum(qs.Keys, Bases(qs)) - Sum(ps.Keys, Bases(ps)) == Basis(p) - Basis(Lookup(ps, symbol))
  {
    var qs := Put(ps, symbol, p);
    var others := ps.Keys - {symbol};
    assert qs.Keys - {symbol} == others;
    SumSame(others, Bases(ps), Bases(qs));
    if symbol in ps {
      SumPick(ps.Keys, Bases(ps), symbol);
    } else {
      assert others == ps.Keys;
    }
    if p.Some? {
      SumPick(qs.Keys, Bases(qs), symbol);
    } else {
      assert others == qs.Keys;
    }
  }

  /** The ledger agrees with the events seen. */
  ghost predicate Balanced(events: seq<Event>, initial: real, cash: real, realized: real, ps: map<string, Position>) {
    && (forall s :: s in ps ==> ValidPosition(ps[s]) && ps[s].current == LastPrice(events, s))
    && (forall s :: Net(events, s) == Signed(Lookup(ps, s)) && Averages(Lookup(ps, s), Lots(events, s)))
    && cash == initial + realized
    && realized == Sum(ps.Keys, Bases(ps)) - Cost(events)
  }

  lemma TradeKeepsBalance(events: seq<Event>, initial: real, cash: real, realized: real, ps: map<string, Position>,
                          t: Trade)
    requires Balanced(events, initial, cash, realized, ps) && ValidTrade(t)
    ensures var (q, profit) := AfterTrade(Lookup(ps, t.symbol), t);
      Balanced(events + [Traded(t)], initial, cash + profit, realized + profit, Put(ps, t.symbol, q))
  {
    hide Sum, Bases, AfterTrade, Net, LastPrice, Cost, Signed, Basis, Averages, Lots, LotsAfter;
    var p := Lookup(ps, t.symbol);
    var (q, profit) := AfterTrade(p, t);
    var all := events + [Traded(t)];
    TradeBalances(p, t);
    assert Net(events, t.symbol) == Signed(p);
    TradeAverages(p, t, Lots(events, t.symbol));
    BasesPut(ps, t.symbol, q);
    TradeCost(events, t);
    var qs := Put(ps, t.symbol, q);
    forall s
      ensures Net(all, s) == Signed(Lookup(qs, s)) && Averages(Lookup(qs, s), Lots(all, s))
    {
      TradeSeen(events, t, s);
      assert Net(events, s) == Signed(Lookup(ps, s));
      assert s != t.symbol ==> Lookup(qs, s) == Lookup(ps, s);
      assert s == t.symbol ==> Lookup(qs, s) == q;
    }
    forall s | s in qs
      ensures ValidPosition(qs[s]) && qs[s].current == LastPrice(all, s)
    {
      TradeSeen(events, t, s);
    }
  }

  lemma TradeSeen(events: seq<Event>, t: Trade, symbol: string)
    ensures var all := events + [Traded(t)];
      && Net(all, symbol) == Net(events, symbol) + (if t.symbol == symbol then TradeQuantity(t) else 0.0)
      && LastPrice(all, symbol) == (if t.symbol == symbol then t.price else LastPrice(events, symbol))
      && Lots(all, symbol)
           == if t.symbol == symbol then LotsAfter(Lots(events, symbol), Net(events, symbol), t)
              else Lots(events, symbol)
  {
    assert (events + [Traded(t)])[..|events|] == events;
  }

  lemma TradeCost(events: seq<Event>, t: Trade)
    ensures Cost(events + [Traded(t)]) == Cost(events) + TradeQuantity(t) * t.price
  {
    assert (events + [Traded(t)])[..|events|] == events;
  }

  lemma MarkKeepsBalance(events: seq<Event>, initial: real, cash: real, realized: real, ps: map<string, Position>,
                         symbol: string, price: real)
    requires Balanced(events, initial, cash, realized, ps) && price >= 0.0
    ensures Balanced(events + [Marked(symbol, price)], initial, cash, realized,
                     if symbol in ps then ps[symbol := ps[symbol].(current := price)] else ps)
  {
    hide Sum, Net, Lots, LastPrice, Cost, LotQuantity, LotCost, Averages;
    var all := events + [Marked(symbol, price)];
    var qs := if symbol in ps then ps[symbol := ps[symbol].(current := price)] else ps;
    MarkCost(events, symbol, price);
    assert qs.Keys == ps.Keys;
    forall s
      ensures Bases(qs)(s) == Bases(ps)(s)
      ensures Net(all, s) == Signed(Lookup(qs, s)) && Averages(Lookup(qs, s), Lots(all, s))
      ensures s in qs ==> ValidPosition(qs[s]) && qs[s].current == LastPrice(all, s)
    {
      MarkSeen(events, symbol, price, s);
      assert Net(events, s) == Signed(Lookup(ps, s)) && Averages(Lookup(ps, s), Lots(events, s));
      MarkAverages(ps, symbol, price, s, Lots(events, s));
    }
    SumSame(ps.Keys, Bases(ps), Bases(qs));
  }

  lemma MarkSeen(events: seq<Event>, symbol: string, price: real, s: string)
    ensures
      var all := events + [Marked(symbol, price)];
      && Net(all, s) == Net(events, s) && Lots(all, s) == Lots(events, s)
      && LastPrice(all, s) == if symbol == s then price else LastPrice(events, s)
  {
    assert (events + [Marked(symbol, price)])[..|events|] == events;
  }

  lemma MarkCost(events: seq<Event>, symbol: string, price: real)
    ensures Cost(events + [Marked(symbol, price)]) == Cost(events)
  {
    assert (events + [Marked(symbol, price)])[..|events|] == events;
  }

  /** A new current price leaves the signed quantity, the basis and the average. */
  lemma MarkAverages(ps: map<string, Position>, symbol: string, price: real, s: string, lots: seq<Lot>)
    ensures
      var qs := if symbol in ps then ps[symbol := ps[symbol].(current := price)] else ps;
      && Signed(Lookup(qs, s)) == Signed(Lookup(ps, s)) && Basis(Lookup(qs, s)) == Basis(Lookup(ps, s))
      && Averages(Lookup(qs, s), lots) == Averages(Lookup(ps, s), lots)
  {
  }

  lemma ProfitIsValueLessBasis(p: Position)
    ensures Unrealized(p) == SignedQuantity(p) * p.current - SignedQuantity(p) * p.entry
  {
    Products(p.current, p.entry, p.quantity);
    Products(p.entry, p.current, p.quantity);
    Products(p.quantity, p.current, 0.0);
    Products(p.quantity, p.entry, 0.0);
    Products(p.quantity, 0.0, p.current);
    Products(p.quantity, 0.0, p.entry);
  }

  /** Equity is the initial cash, less the signed cost of all trades, plus net positions at their
      last prices; symbols without a position have net zero. */
  lemma EquityIdentity(events: seq<Event>, initial: real, cash: real, realized: real, ps: map<string, Position>)
    requires Balanced(events, initial, cash, realized, ps)
    ensures cash + Sum(ps.Keys, Profits(ps)) == initial - Cost(events) + Sum(ps.Keys, Values(events))
    ensures forall s :: s in ps <==> Net(events, s) != 0.0
  {
    hide Sum, Cost, Unrealized, Net, LastPrice, Averages, Lots;
    forall s | s in ps.Keys
      ensures Profits(ps)(s) == Values(events)(s) - Bases(ps)(s)
    {
      var p := ps[s];
      assert Net(events, s) == Signed(Lookup(ps, s));
      ProfitIsValueLessBasis(p);
    }
    SumDifference(ps.Keys, Values(events), Bases(ps), Profits(ps));
    forall s
      ensures s in ps <==> Net(events, s) != 0.0
    {
      assert Net(events, s) == Signed(Lookup(ps, s));
    }
  }

  class PortfolioTracker {
    const initialCash: real
    const maintenanceMarginRatio: real
    var cashBalance: real
    var totalRealizedPnl: real
    var positions: map<string, Position>
    ghost var events: seq<Event>

    ghost predicate Valid()
      reads this
    {
      Balanced(events, initialCash, cashBalance, totalRealizedPnl, positions)
    }

    constructor (initialCash: real, maintenanceMarginRatio: real)
      ensures Valid() && events == [] && this.initialCash == initialCash && cashBalance == initialCash
      ensures this.maintenanceMarginRatio == maintenanceMarginRatio
    {
      this.initialCash, this.maintenanceMarginRatio := initialCash, maintenanceMarginRatio;
      cashBalance, totalRealizedPnl, positions, events := initialCash, 0.0, map[], [];
    }

    /** update_price; false stands for the ValueError of a negative price. */
    method UpdatePrice(symbol: string, price: real) returns (ok: bool)
      requires Valid()
      modifies this
      ensures Valid() && ok == (price >= 0.0)
      ensures events == if ok then old(events) + [Marked(symbol, price)] else old(events)
      ensures cashBalance == old(cashBalance) && totalRealizedPnl == old(totalRealizedPnl)
      ensures positions ==
        if ok && symbol in old(positions) then old(positions)[symbol := old(positions)[symbol].(current := price)]
        else old(positions)
    {
      ok := price >= 0.0;
      if ok {
        hide Balanced;
        MarkKeepsBalance(events, initialCash, cashBalance, totalRealizedPnl, positions, symbol, price);
        events := events + [Marked(symbol, price)];
        if symbol in positions {
          positions := positions[symbol := positions[symbol].(current := price)];
        }
      }
    }

    /** execute_trade; false stands for its ValueErrors, which change nothing. */
    method ExecuteTrade(t: Trade) returns (ok: bool)
      requires Valid()
      modifies this
      ensures Valid() && ok == (t.quantity > 0.0 && t.price > 0.0)
      ensures events == if ok then old(events) + [Traded(t)] else old(events)
      ensures ok ==>
        var (q, profit) := AfterTrade(Lookup(old(positions), t.symbol), t);
        && positions == Put(old(positions), t.symbol, q)
        && cashBalance == old(cashBalance) + profit && totalRealizedPnl == old(totalRealizedPnl) + profit
      ensures ok ==> Averages(Lookup(positions, t.symbol), Lots(events, t.symbol))
      ensures !ok ==>
        positions == old(positions) && cashBalance == old(cashBalance) && totalRealizedPnl == old(totalRealizedPnl)
    {
      if t.quantity <= 0.0 || t.price <= 0.0 {
        return false;
      }
      ok := true;
      TradeKeepsBalance(events, initialCash, cashBalance, totalRealizedPnl, positions, t);
      events := events + [Traded(t)];
      Settle(t);
    }

    /** The branches of execute_trade. */
    method Settle(t: Trade)
      requires ValidTrade(t) && forall s :: s in positions ==> ValidPosition(positions[s])
      modifies this`positions, this`cashBalance, this`totalRealizedPnl
      ensures var (q, profit) := AfterTrade(Lookup(old(positions), t.symbol), t);
        && positions == Put(old(positions), t.symbol, q)
        && cashBalance == old(cashBalance) + profit && totalRealizedPnl == old(totalRealizedPnl) + profit
    {
      var symbol := t.symbol;
      if symbol !in positions {
        positions := positions[symbol := Position(if t.side == Buy then Long else Short, t.quantity, t.price, t.price)];
        return;
      }
      var existing := positions[symbol];
      if (existing.side == Long && t.side == Buy) || (existing.side == Short && t.side == Sell) {
        var newQuantity := existing.quantity + t.quantity;
        var newEntry := AverageEntry(existing, t);
        positions := positions[symbol := Position(existing.side, newQuantity, newEntry, t.price)];
        return;
      }
      if t.quantity < existing.quantity {
        ApplyRealizedPnl(Realized(existing, t.quantity, t.price));
        positions := positions[symbol := existing.(quantity := existing.quantity - t.quantity, current := t.price)];
      } else if t.quantity == existing.quantity {
        ApplyRealizedPnl(Realized(existing, t.quantity, t.price));
        positions := positions - {symbol};
      } else {
        ApplyRealizedPnl(Realized(existing, existing.quantity, t.price));
        positions := positions[symbol := Position(if t.side == Sell then Short else Long,
                                                  t.quantity - existing.quantity, t.price, t.price)];
      }
    }

    method ApplyRealizedPnl(profit: real)
      modifies this`cashBalance, this`totalRealizedPnl
      ensures cashBalance == old(cashBalance) + profit && totalRealizedPnl == old(totalRealizedPnl) + profit
    {
      totalRealizedPnl := totalRealizedPnl + profit;
      cashBalance := cashBalance + profit;
    }

    method TotalUnrealizedPnl() returns (total: real)
      ensures total == Sum(positions.Keys, Profits(positions))
    {
      total := 0.0;
      var left := positions.Keys;
      while left != {}
        invariant left <= positions.Keys
        invariant total + Sum(left, Profits(positions)) == Sum(positions.Keys, Profits(positions))
        decreases left
      {
        var s :| s in left;
        SumPick(left, Profits(positions), s);
        total := total + Unrealized(positions[s]);
        left := left - {s};
      }
    }

    /** total_equity, in terms of the events alone. */
    method TotalEquity() returns (equity: real)
      requires Valid()
      ensures Valid() && equity == initialCash - Cost(events) + Sum(positions.Keys, Values(events))
      ensures forall s :: s in positions <==> Net(events, s) != 0.0
      ensures cashBalance - initialCash == totalRealizedPnl
    {
      var unrealized := TotalUnrealizedPnl();
      equity := cashBalance + unrealized;
      EquityIdentity(events, initialCash, cashBalance, totalRealizedPnl, positions);
    }
  }
}
