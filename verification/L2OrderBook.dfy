/** src/orderbook/l2_order_book.py: two red-black trees refine two price-to-quantity maps. */
module L2OrderBooks {
  import opened KeyedSeq
  import opened Options
  import opened Sequences
  import opened RbShape
  import opened RedBlackTrees

  type Levels = map<real, real>

  /** The book as its users see it. */
  datatype Book = Sides(bids: Levels, asks: Levels)

  datatype Update = Update(isBid: bool, price: real, quantity: real)

  /** What update_bid and update_ask check before touching the book. */
  predicate Accepted(u: Update) {
    u.price > 0.0 && u.quantity >= 0.0
  }

  function SetLevel(m: Levels, price: real, quantity: real): Levels {
    if quantity == 0.0 then m - {price} else m[price := quantity]
  }

  function Apply(b: Book, u: Update): Book {
    if !Accepted(u) then b
    else if u.isBid then b.(bids := SetLevel(b.bids, u.price, u.quantity))
    else b.(asks := SetLevel(b.asks, u.price, u.quantity))
  }

  function Run(us: seq<Update>): Book {
    if us == [] then Sides(map[], map[]) else Apply(Run(us[..|us|-1]), us[|us|-1])
  }

  function Side(b: Book, isBid: bool): Levels {
    if isBid then b.bids else b.asks
  }

  /** The quantity named last for a price, over a whole run; zero if there was none. */
  function LastQuantity(us: seq<Update>, isBid: bool, price: real): real {
    if us == [] then 0.0
    else
      var u := us[|us|-1];
      if Accepted(u) && u.isBid == isBid && u.price == price then u.quantity
      else LastQuantity(us[..|us|-1], isBid, price)
  }

  /** After any run, the level at a price is what the last accepted update said about it,
      and there is none exactly when that was zero. */
  lemma {:induction false} LevelIsLastUpdate(us: seq<Update>, isBid: bool, price: real)
    ensures price in Side(Run(us), isBid) <==> LastQuantity(us, isBid, price) != 0.0
    ensures price in Side(Run(us), isBid) ==>
      Side(Run(us), isBid)[price] == LastQuantity(us, isBid, price) && price > 0.0
      && Side(Run(us), isBid)[price] > 0.0
    decreases |us|
  {
    if us != [] {
      LevelIsLastUpdate(us[..|us|-1], isBid, price);
    }
  }

  // ---- listings ----

  predicate Better(a: real, b: real, descending: bool) {
    if descending then a > b else a < b
  }

  ghost predicate Listed(s: seq<Entry>, p: real) {
    exists j :: 0 <= j < |s| && s[j].0 == p
  }

  /** The first count levels of m, best first: descending for bids, ascending for asks. */
  ghost predicate Listing(s: seq<Entry>, m: Levels, count: nat, descending: bool) {
    && |s| == (if count < |m| then count else |m|)
    && (forall i, j :: 0 <= i < j < |s| ==> Better(s[i].0, s[j].0, descending))
    && (forall i :: 0 <= i < |s| ==> s[i].0 in m && m[s[i].0] == s[i].1)
    && (forall p, i :: p in m && !Listed(s, p) && 0 <= i < |s| ==> Better(s[i].0, p, descending))
  }

  lemma {:induction false} MapSize(s: seq<Entry>)
    requires Sorted(s)
    ensures |ToMap(s)| == |s|
    decreases |s|
  {
    if s != [] {
      var k := s[|s|-1].0;
      MapSize(s[..|s|-1]);
      ToMapKeys(s[..|s|-1], k);
    }
  }

  lemma EntryIndex(s: seq<Entry>, p: real) returns (i: nat)
    requires p in ToMap(s)
    ensures i < |s| && s[i].0 == p
  {
    ToMapKeys(s, p);
    i :| 0 <= i < |s| && s[i].0 == p;
  }

  function Oriented(e: seq<Entry>, descending: bool): (r: seq<Entry>)
    ensures |r| == |e|
  {
    if descending then Reverse(e) else e
  }

  lemma OrientedAt(e: seq<Entry>, descending: bool, i: nat)
    requires Sorted(e) && i < |e|
    ensures
      var s := Oriented(e, descending);
      && s[i].0 in ToMap(e) && ToMap(e)[s[i].0] == s[i].1
      && forall j :: i < j < |e| ==> Better(s[i].0, s[j].0, descending)
  {
    ToMapAt(e, if descending then |e| - 1 - i else i);
  }

  lemma OrientedIndex(e: seq<Entry>, descending: bool, p: real) returns (i: nat)
    requires p in ToMap(e)
    ensures i < |e| && Oriented(e, descending)[i].0 == p
  {
    i := EntryIndex(e, p);
    i := if descending then |e| - 1 - i else i;
  }

  /** A depth listing is the prefix of the sorted levels. */
  lemma PrefixIsListing(e: seq<Entry>, count: nat, descending: bool)
    requires Sorted(e)
    ensures Listing(Prefix(Oriented(e, descending), count), ToMap(e), count, descending)
  {
    var full, m := Oriented(e, descending), ToMap(e);
    var s := Prefix(full, count);
    MapSize(e);
    forall i | 0 <= i < |s|
      ensures s[i].0 in m && m[s[i].0] == s[i].1
      ensures forall j :: i < j < |s| ==> Better(s[i].0, s[j].0, descending)
    {
      OrientedAt(e, descending, i);
    }
    assert forall k :: 0 <= k < |s| ==> s[k] == full[k];
    forall p, i | p in m && !Listed(s, p) && 0 <= i < |s|
      ensures Better(s[i].0, p, descending)
    {
      var k := OrientedIndex(e, descending, p);
      OrientedAt(e, descending, i);
    }
  }

  class L2OrderBook {
    const bidsTree: RedBlackTree
    const asksTree: RedBlackTree

    ghost predicate Valid()
      reads this, bidsTree, asksTree, bidsTree.nodes, asksTree.nodes
    {
      && bidsTree != asksTree && bidsTree.Valid() && asksTree.Valid()
      && bidsTree.nodes !! asksTree.nodes
    }

    ghost function Book(): Book
      reads bidsTree, asksTree
    {
      Sides(bidsTree.Contents(), asksTree.Contents())
    }

    constructor ()
      ensures Valid() && Book() == Sides(map[], map[])
      ensures fresh(bidsTree) && fresh(asksTree)
    {
      bidsTree := new RedBlackTree();
      asksTree := new RedBlackTree();
    }

    /** update_bid; false stands for the ValueError of a bad price or quantity. */
    method UpdateBid(price: real, quantity: real) returns (ok: bool)
      requires Valid()
      modifies bidsTree, bidsTree.nodes
      ensures Valid() && fresh(bidsTree.nodes - old(bidsTree.nodes))
      ensures ok == (price > 0.0 && quantity >= 0.0)
      ensures Book() == Apply(old(Book()), Update(true, price, quantity))
      ensures ok ==> Book() == old(Book()).(bids :=
        if quantity == 0.0 then old(Book()).bids - {price} else old(Book()).bids[price := quantity])
      ensures !ok ==> Book() == old(Book())
    {
      hide RedBlackTree.Valid;
      if price <= 0.0 {
        return false;
      }
      if quantity < 0.0 {
        return false;
      }
      if quantity == 0.0 {
        var found := bidsTree.Contains(price);
        if found {
          var _ := bidsTree.Delete(price);
        }
      } else {
        bidsTree.Insert(price, quantity);
      }
      ok := true;
    }

    method UpdateAsk(price: real, quantity: real) returns (ok: bool)
      requires Valid()
      modifies asksTree, asksTree.nodes
      ensures Valid() && fresh(asksTree.nodes - old(asksTree.nodes))
      ensures ok == (price > 0.0 && quantity >= 0.0)
      ensures Book() == Apply(old(Book()), Update(false, price, quantity))
      ensures ok ==> Book() == old(Book()).(asks :=
        if quantity == 0.0 then old(Book()).asks - {price} else old(Book()).asks[price := quantity])
      ensures !ok ==> Book() == old(Book())
    {
      hide RedBlackTree.Valid;
      if price <= 0.0 {
        return false;
      }
      if quantity < 0.0 {
        return false;
      }
      if quantity == 0.0 {
        var found := asksTree.Contains(price);
        if found {
          var _ := asksTree.Delete(price);
        }
      } else {
        asksTree.Insert(price, quantity);
      }
      ok := true;
    }

    /** The highest bid. */
    method BestBid() returns (best: Option<Entry>)
      requires Valid()
      ensures best.None? <==> Book().bids == map[]
      ensures best.Some? ==>
        && best.value.0 in Book().bids && Book().bids[best.value.0] == best.value.1
        && forall p :: p in Book().bids ==> p <= best.value.0
    {
      best := bidsTree.FindMax();
      PrefixIsListing(bidsTree.Entries(), 1, true);
      if best.Some? {
        TopOfListing(bidsTree.Entries(), true);
      }
    }

    /** The lowest ask. */
    method BestAsk() returns (best: Option<Entry>)
      requires Valid()
      ensures best.None? <==> Book().asks == map[]
      ensures best.Some? ==>
        && best.value.0 in Book().asks && Book().asks[best.value.0] == best.value.1
        && forall p :: p in Book().asks ==> p >= best.value.0
    {
      best := asksTree.FindMin();
      PrefixIsListing(asksTree.Entries(), 1, false);
      if best.Some? {
        TopOfListing(asksTree.Entries(), false);
      }
    }

    method GetBidQuantity(price: real) returns (quantity: real)
      requires Valid()
      ensures quantity == if price in Book().bids then Book().bids[price] else 0.0
    {
      var found := bidsTree.Get(price, Some(0.0));
      quantity := found.value;
    }

    method GetAskQuantity(price: real) returns (quantity: real)
      requires Valid()
      ensures quantity == if price in Book().asks then Book().asks[price] else 0.0
    {
      var found := asksTree.Get(price, Some(0.0));
      quantity := found.value;
    }

    /** Bid levels from the highest price down; a negative depth lists nothing. */
    method GetBids(depth: Option<int>) returns (bids: seq<Entry>)
      requires Valid()
      ensures Listing(bids, Book().bids, DepthCount(depth, |Book().bids|), true)
      ensures depth == None ==> |bids| == |Book().bids|
      ensures depth.Some? && depth.value <= 0 ==> bids == []
      ensures depth.Some? && depth.value > 0 ==> |bids| == depth.value || depth.value > |bids| == |Book().bids|
    {
      bids := bidsTree.GetItems(true);
      MapSize(bidsTree.Entries());
      PrefixIsListing(bidsTree.Entries(), DepthCount(depth, |bids|), true);
      if depth.Some? {
        bids := Prefix(bids, if depth.value < 0 then 0 else depth.value);
      }
    }

    /** Ask levels from the lowest price up. */
    method GetAsks(depth: Option<int>) returns (asks: seq<Entry>)
      requires Valid()
      ensures Listing(asks, Book().asks, DepthCount(depth, |Book().asks|), false)
      ensures depth == None ==> |asks| == |Book().asks|
      ensures depth.Some? && depth.value <= 0 ==> asks == []
      ensures depth.Some? && depth.value > 0 ==> |asks| == depth.value || depth.value > |asks| == |Book().asks|
    {
      asks := asksTree.GetItems(false);
      MapSize(asksTree.Entries());
      PrefixIsListing(asksTree.Entries(), DepthCount(depth, |asks|), false);
      if depth.Some? {
        asks := Prefix(asks, if depth.value < 0 then 0 else depth.value);
      }
    }

    method Clear()
      requires Valid()
      modifies bidsTree, asksTree
      ensures Valid() && Book() == Sides(map[], map[])
    {
      bidsTree.Clear();
      asksTree.Clear();
    }
  }

  /** A Python slice s[:n]. */
  function Prefix<T>(s: seq<T>, n: nat): seq<T> {
    if n < |s| then s[..n] else s
  }

  function DepthCount(depth: Option<int>, all: nat): nat {
    if depth.None? then all else if depth.value < 0 then 0 else depth.value
  }

  lemma TopOfListing(e: seq<Entry>, descending: bool)
    requires Sorted(e) && e != []
    ensures
      var t := if descending then e[|e| - 1] else e[0];
      && t.0 in ToMap(e) && ToMap(e)[t.0] == t.1
      && forall p :: p in ToMap(e) ==> if descending then p <= t.0 else p >= t.0
  {
    ToMapAt(e, if descending then |e| - 1 else 0);
    forall p | p in ToMap(e)
      ensures if descending then p <= e[|e| - 1].0 else p >= e[0].0
    {
      var k := EntryIndex(e, p);
    }
  }

}
