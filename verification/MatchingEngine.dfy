/** src/execution/matching_engine.py on order objects that are filled in place. */
module MatchingEngines {
  import opened Options
  import opened MatchingSpec
  import opened Reals

  datatype Status = Pending | PartiallyFilled | Filled | Cancelled

  /** A priced order; the dataclass has already defaulted remaining_quantity. */
  class Order {
    const orderId: string
    const symbol: string
    const side: Side
    const price: real
    const quantity: real
    const timestamp: Option<real>
    var remaining: real
    var status: Status

    constructor (orderId: string, symbol: string, side: Side, price: real, quantity: real,
                 remaining: Option<real>, timestamp: Option<real>)
      requires remaining.Some? ==> remaining.value >= 0.0
      ensures RequestOf(this) == Request(orderId, symbol, side, price, quantity,
                if remaining.Some? then remaining.value else quantity, timestamp)
      ensures status == Pending
    {
      this.orderId, this.symbol, this.side, this.price, this.quantity := orderId, symbol, side, price, quantity;
      this.timestamp := timestamp;
      this.remaining := if remaining.Some? then remaining.value else quantity;
      status := Pending;
    }
  }

  function RequestOf(o: Order): Request
    reads o
  {
    Request(o.orderId, o.symbol, o.side, o.price, o.quantity, o.remaining, o.timestamp)
  }

  type Item = (Order, nat)

  function EntryOf(x: Item): Entry
    reads x.0
  {
    Entry(x.0.orderId, x.0.price, SortTs(x.0.timestamp), x.1, x.0.remaining)
  }

  ghost function Orders(s: seq<Item>): set<Order> {
    set x | x in s :: x.0
  }

  function EntriesOf(s: seq<Item>): (r: seq<Entry>)
    reads Orders(s)
    ensures |r| == |s| && forall i :: 0 <= i < |s| ==> r[i] == EntryOf(s[i])
  {
    seq(|s|, i requires 0 <= i < |s| reads Orders(s) => EntryOf(s[i]))
  }

  predicate Suffix(rest: seq<Item>, all: seq<Item>) {
    |rest| <= |all| && rest == all[|all| - |rest|..]
  }

  lemma SuffixAll(all: seq<Item>)
    ensures Suffix(all, all)
  {
  }

  lemma SuffixParts(rest: seq<Item>, all: seq<Item>)
    requires Suffix(rest, all) && NoAlias(all)
    ensures NoAlias(rest) && Orders(rest) <= Orders(all) && |rest| <= |all|
    ensures rest != [] ==> Suffix(rest[1..], all) && rest[0] == all[|all| - |rest|]
    ensures rest != [] ==> forall i :: 0 <= i < |all| - |rest| ==> all[i].0 != rest[0].0
  {
  }

  predicate NoAlias(s: seq<Item>) {
    forall i, j :: 0 <= i < j < |s| ==> s[i].0 != s[j].0
  }

  /** The trades of a filling preceded by those already made. */
  function Then(trades: seq<Trade>, f: Filling): Filling {
    f.(trades := trades + f.trades)
  }

  lemma ThenNone(f: Filling)
    ensures Then([], f) == f
  {
    assert [] + f.trades == f.trades;
  }

  lemma ThenStop(trades: seq<Trade>, makers: seq<Entry>, remaining: real)
    ensures Then(trades, Filling([], makers, remaining)) == Filling(trades, makers, remaining)
  {
    assert trades + [] == trades;
  }

  lemma ThenOne(trades: seq<Trade>, t: Trade, f: Filling)
    ensures Then(trades, Then([t], f)) == Then(trades + [t], f)
  {
    assert trades + ([t] + f.trades) == trades + [t] + f.trades;
  }

  lemma FillEnds(r: Request, remaining: real, makers: seq<Entry>)
    requires remaining <= 0.0 || makers == [] || !Crosses(r.side, r.price, makers[0].price)
    ensures Fill(r, remaining, makers) == Filling([], makers, remaining)
  {}

  /** The makers after the head has traded. */
  function LeftOver(makers: seq<Entry>, quantity: real): seq<Entry>
    requires makers != []
  {
    var m := makers[0];
    if m.remaining - quantity == 0.0 then makers[1..] else [m.(remaining := m.remaining - quantity)] + makers[1..]
  }

  /** One round: the head is popped when it is filled, otherwise the taker is. */
  lemma RoundIs(r: Request, remaining: real, makers: seq<Entry>)
    requires remaining > 0.0 && makers != [] && Crosses(r.side, r.price, makers[0].price)
    ensures
      var q := Min(remaining, makers[0].remaining);
      Fill(r, remaining, makers) == Then([TradeOf(r, makers[0], q)], Fill(r, remaining - q, LeftOver(makers, q)))
  {
    FillStep(r, remaining, makers);
    var m := makers[0];
    var q := Min(remaining, m.remaining);
    if m.remaining - q != 0.0 {
      FillStep(r, remaining - q, [m.(remaining := m.remaining - q)] + makers[1..]);
    }
  }

  lemma OthersApart(order: Order, makers: seq<Item>)
    requires makers != [] && order !in Orders(makers) && NoAlias(makers)
    ensures forall i :: 1 <= i < |makers| ==> makers[i].0 != makers[0].0 && makers[i].0 != order
  {
    forall i | 1 <= i < |makers|
      ensures makers[i].0 != makers[0].0 && makers[i].0 != order
    {
      assert makers[i] in makers;
    }
  }

  /** The result of a submission: the ValueErrors of submit_order, or the trades. */
  datatype Outcome = Refused | Executed(trades: seq<Trade>)

  class MatchingEngine {
    const symbol: string
    var bids: seq<Item>
    var asks: seq<Item>
    var orderIds: set<string>
    var sequence: nat

    ghost function Resting(): set<Order>
      reads this
    {
      Orders(bids) + Orders(asks)
    }

    ghost function BookNow(): Book
      reads this, Resting()
    {
      Book(EntriesOf(bids), EntriesOf(asks), orderIds, sequence)
    }

    ghost predicate Valid()
      reads this, Resting()
    {
      Sound(BookNow())
    }

    constructor (symbol: string)
      ensures Valid() && this.symbol == symbol && BookNow() == Book([], [], {}, 0)
    {
      this.symbol := symbol;
      bids, asks, orderIds, sequence := [], [], {}, 0;
    }

    /** The matching loop, over the makers of the opposite side. */
    method Match(order: Order, makers: seq<Item>) returns (rest: seq<Item>, trades: seq<Trade>)
      requires order !in Orders(makers) && NoAlias(makers) && Positive(EntriesOf(makers))
      requires order.remaining >= 0.0
      modifies order, Orders(makers)
      ensures Suffix(rest, makers)
      ensures
        var f := Fill(old(RequestOf(order)), old(order.remaining), old(EntriesOf(makers)));
        trades == f.trades && EntriesOf(rest) == f.makers && order.remaining == f.remaining
      ensures order.status == if trades == [] then old(order.status)
                              else if order.remaining == 0.0 then Filled else PartiallyFilled
      ensures |rest| <= |makers| && forall i :: 0 <= i < |makers| - |rest| ==> makers[i].0.status == Filled
    {
      hide Fill, TradeOf, SortTs, Suffix, Then, NoAlias, Crosses, EntriesOf;
      SuffixAll(makers);
      ThenNone(Fill(RequestOf(order), order.remaining, EntriesOf(makers)));
      rest, trades := makers, [];
      ghost var r, f := RequestOf(order), Fill(RequestOf(order), order.remaining, EntriesOf(makers));
      while order.remaining > 0.0 && rest != []
        invariant Suffix(rest, makers)
        invariant (forall i :: 0 <= i < |rest| ==> rest[i].0.remaining > 0.0) && order.remaining >= 0.0
        invariant f == Then(trades, Fill(r, order.remaining, EntriesOf(rest)))
        invariant order.status == if trades == [] then old(order.status)
                                  else if order.remaining == 0.0 then Filled else PartiallyFilled
        invariant |rest| <= |makers| && forall i :: 0 <= i < |makers| - |rest| ==> makers[i].0.status == Filled
        decreases |rest|, order.remaining > 0.0
      {
        var best := rest[0].0;
        SuffixParts(rest, makers);
        if !Crosses(order.side, order.price, best.price) {
          break;
        }
        var trade;
        rest, trade := TradeHead(r, order, rest);
        ThenOne(trades, trade, Fill(r, order.remaining, EntriesOf(rest)));
        trades := trades + [trade];
      }
      FillEnds(r, order.remaining, EntriesOf(rest));
      ThenStop(trades, EntriesOf(rest), order.remaining);
      SuffixParts(rest, makers);
    }

    /** One round of the matching loop: trade with the first maker, pop it if it is filled. */
    method TradeHead(ghost r: Request, order: Order, makers: seq<Item>) returns (rest: seq<Item>, trade: Trade)
      requires makers != [] && order.remaining > 0.0 && order !in Orders(makers) && NoAlias(makers)
      requires forall i :: 0 <= i < |makers| ==> makers[i].0.remaining > 0.0
      requires RequestOf(order).(remaining := r.remaining) == r && Crosses(r.side, r.price, makers[0].0.price)
      modifies order, makers[0].0
      ensures rest == makers || rest == makers[1..]
      ensures order.remaining >= 0.0 && (order.remaining > 0.0 ==> rest == makers[1..])
      ensures forall i :: 0 <= i < |rest| ==> rest[i].0.remaining > 0.0
      ensures Fill(r, old(order.remaining), old(EntriesOf(makers)))
           == Then([trade], Fill(r, order.remaining, EntriesOf(rest)))
      ensures order.status == if order.remaining == 0.0 then Filled else PartiallyFilled
      ensures rest == makers[1..] ==> makers[0].0.status == Filled
    {
      hide Fill, Positive, SortTs, Then, NoAlias;
      RoundIs(r, order.remaining, EntriesOf(makers));
      var best := makers[0].0;
      var quantity := Min(order.remaining, best.remaining);
      trade := Trade(best.price, quantity, best.orderId, order.orderId, order.timestamp);
      rest := Exchange(order, makers, quantity);
    }

    /** Both parties lose the traded quantity; a filled maker leaves the book. */
    method Exchange(order: Order, makers: seq<Item>, quantity: real) returns (rest: seq<Item>)
      requires makers != [] && order !in Orders(makers) && NoAlias(makers)
      modifies order, makers[0].0
      ensures var best := makers[0].0;
        && order.remaining == old(order.remaining) - quantity && best.remaining == old(best.remaining) - quantity
        && order.status == (if order.remaining == 0.0 then Filled else PartiallyFilled)
        && best.status == (if best.remaining == 0.0 then Filled else PartiallyFilled)
        && rest == if best.remaining == 0.0 then makers[1..] else makers
      ensures EntriesOf(rest) == LeftOver(old(EntriesOf(makers)), quantity)
      ensures forall i :: 1 <= i < |makers| ==> makers[i].0.remaining == old(makers[i].0.remaining)
    {
      hide SortTs, EntriesOf, NoAlias;
      ghost var before := EntriesOf(makers);
      var best := makers[0].0;
      assert forall i :: 1 <= i < |makers| ==> makers[i].0 != best && makers[i].0 != order by {
        OthersApart(order, makers);
      }
      best.remaining := best.remaining - quantity;
      order.remaining := order.remaining - quantity;
      order.status := if order.remaining == 0.0 then Filled else PartiallyFilled;
      if best.remaining == 0.0 {
        best.status := Filled;
        rest := makers[1..];
        assert EntriesOf(rest) == before[1..];
      } else {
        best.status := PartiallyFilled;
        rest := makers;
        assert EntriesOf(rest) == [before[0].(remaining := best.remaining)] + before[1..];
      }
    }

    /** Append and sort by the side's key. */
    static method Rest(side: Side, s: seq<Item>, x: Item) returns (t: seq<Item>)
      ensures EntriesOf(t) == Place(side, EntriesOf(s), EntryOf(x)) && Orders(t) == Orders(s) + {x.0}
    {
      hide Place, Ahead;
      var i := 0;
      while i < |s| && !Ahead(side, EntryOf(x), EntryOf(s[i]))
        invariant 0 <= i <= |s| && forall j :: 0 <= j < i ==> !Ahead(side, EntryOf(x), EntryOf(s[j]))
      {
        i := i + 1;
      }
      PlaceAt(side, EntriesOf(s), EntryOf(x), i);
      t := s[..i] + [x] + s[i..];
    }

    method SubmitOrder(order: Order) returns (outcome: Outcome)
      requires Valid() && order.remaining >= 0.0
      modifies this, order, Resting()
      ensures Valid()
      ensures outcome.Refused? <==>
        order.symbol != symbol || order.orderId in old(orderIds) || order.quantity <= 0.0 || order.price <= 0.0
      ensures BookNow() == Submit(symbol, old(BookNow()), old(RequestOf(order))).0
      ensures outcome.Executed? ==> outcome.trades == Submit(symbol, old(BookNow()), old(RequestOf(order))).1
      ensures outcome.Refused? ==> order.remaining == old(order.remaining) && order.status == old(order.status)
      ensures outcome.Executed? ==>
        && order.remaining == old(order.remaining) - Traded(outcome.trades)
        && FairTrades(old(RequestOf(order)), if order.side == Buy then old(EntriesOf(asks)) else old(EntriesOf(bids)),
                      outcome.trades)
      ensures Resting() <= old(Resting()) + {order}
    {
      hide Fill, Sound, Traded, Total, Rested, Positive;
      ghost var b, r := BookNow(), RequestOf(order);
      if order.symbol != symbol {
        return Refused;
      }
      if order.orderId in orderIds {
        return Refused;
      }
      if order.quantity <= 0.0 {
        return Refused;
      }
      if order.price <= 0.0 {
        return Refused;
      }
      orderIds := orderIds + {order.orderId};
      sequence := sequence + 1;
      SubmitSound(symbol, b, r);
      NotResting(order, b);
      FillConserves(r, r.remaining, Opposite(b, r.side));
      FillIsFair(r, r.remaining, Opposite(b, r.side));
      var trades;
      if order.side == Buy {
        trades := SubmitBuy(order, b);
      } else {
        trades := SubmitSell(order, b);
      }
      outcome := Executed(trades);
    }

    /** The BUY branch of submit_order. */
    method SubmitBuy(order: Order, ghost b: Book) returns (trades: seq<Trade>)
      requires b.bids == EntriesOf(bids) && b.asks == EntriesOf(asks) && sequence == b.seqNo + 1
      requires order !in Resting() && Orders(bids) !! Orders(asks) && NoAlias(asks) && Positive(b.asks)
      requires order.side == Buy && order.remaining >= 0.0
      modifies this`bids, this`asks, order, Orders(asks)
      ensures
        var r := old(RequestOf(order));
        var f := Fill(r, r.remaining, b.asks);
        && trades == f.trades && order.remaining == f.remaining
        && EntriesOf(asks) == f.makers && EntriesOf(bids) == Rested(b, r, f.remaining)
      ensures Resting() <= old(Resting()) + {order}
    {
      hide Fill, Place, Positive, SortTs;
      asks, trades := Match(order, asks);
      if order.remaining > 0.0 {
        bids := Rest(Buy, bids, (order, sequence));
      }
    }

    /** The SELL branch of submit_order. */
    method SubmitSell(order: Order, ghost b: Book) returns (trades: seq<Trade>)
      requires b.bids == EntriesOf(bids) && b.asks == EntriesOf(asks) && sequence == b.seqNo + 1
      requires order !in Resting() && Orders(bids) !! Orders(asks) && NoAlias(bids) && Positive(b.bids)
      requires order.side == Sell && order.remaining >= 0.0
      modifies this`bids, this`asks, order, Orders(bids)
      ensures
        var r := old(RequestOf(order));
        var f := Fill(r, r.remaining, b.bids);
        && trades == f.trades && order.remaining == f.remaining
        && EntriesOf(bids) == f.makers && EntriesOf(asks) == Rested(b, r, f.remaining)
      ensures Resting() <= old(Resting()) + {order}
    {
      hide Fill, Place, Positive, SortTs;
      bids, trades := Match(order, bids);
      if order.remaining > 0.0 {
        asks := Rest(Sell, asks, (order, sequence));
      }
    }

    /** An order whose id was never seen is not in the book, and no order is there twice. */
    lemma NotResting(order: Order, b: Book)
      requires Sound(b) && order.orderId !in b.ids
      requires b.bids == EntriesOf(bids) && b.asks == EntriesOf(asks)
      ensures order !in Resting() && Orders(bids) !! Orders(asks) && NoAlias(bids) && NoAlias(asks)
      ensures Positive(b.bids) && Positive(b.asks)
    {
      OwnUnique(b, Buy);
      OwnUnique(b, Sell);
      Distinct(bids);
      Distinct(asks);
      var all := b.bids + b.asks;
      forall i, j | 0 <= i < |bids| && 0 <= j < |asks|
        ensures bids[i].0 != asks[j].0
      {
        assert all[i].id != all[|bids| + j].id;
      }
    }

    static lemma Distinct(s: seq<Item>)
      requires UniqueIds(EntriesOf(s))
      ensures NoAlias(s)
    {
      forall i, j | 0 <= i < j < |s|
        ensures s[i].0 != s[j].0
      {
        assert EntriesOf(s)[i].id != EntriesOf(s)[j].id;
      }
    }
  }

}
