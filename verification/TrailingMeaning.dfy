/** What the ticks of the two trailing-stop engines mean, said of the prices seen so far. */
module TrailingMeaning {
  import opened Options
  import opened TrailingStops

  // ---- the processor: one tick ----

  /** A stop lies the delta away from the extreme price, or that part of the price. */
  lemma CandidateMeaning(o: Stop, extreme: real)
    ensures
      var gap := if o.deltaType == Percentage then extreme * o.delta else o.delta;
      Candidate(o, extreme) == if o.side == Sell then extreme - gap else extreme + gap
  {
  }

  /** An order takes part in a tick when it is active, or pending without an activation price or
      with one that the price has reached. */
  predicate TakesPart(o: Stop, price: real) {
    || o.status == Active
    || (o.status == Pending && o.activation == None)
    || (o.status == Pending && o.side == Sell && o.activation.Some? && o.activation.value <= price)
    || (o.status == Pending && o.side == Buy && o.activation.Some? && o.activation.value >= price)
  }

  /** One tick: an order that takes no part is left alone, one whose stop the price has reached is
      triggered at the price, and any other is active with the best price seen and a stop that has
      moved only towards it. */
  lemma TickMeaning(o: Stop, price: real)
    ensures
      var t := Tick(o, price);
      && (!TakesPart(o, price) ==> t == o)
      && (TakesPart(o, price) ==>
          && (t.status == Triggered <==> if o.side == Sell then o.stop >= price else o.stop <= price)
          && (t.status == Triggered ==> t == o.(status := Triggered, trigger := Some(price)))
          && (t.status != Triggered ==>
              && t.status == Active && t.trigger == o.trigger && t.side == o.side && t.delta == o.delta
              && t.deltaType == o.deltaType && t.activation == o.activation
              && (o.side == Sell ==>
                  && t.lowest == o.lowest && IsGreatest(t.highest, o.highest, price) && t.stop >= o.stop
                  && t.stop >= Candidate(o, t.highest.value)
                  && (t.stop == o.stop || t.stop == Candidate(o, t.highest.value)))
              && (o.side == Buy ==>
                  && t.highest == o.highest && IsLeast(t.lowest, o.lowest, price) && t.stop <= o.stop
                  && t.stop <= Candidate(o, t.lowest.value)
                  && (t.stop == o.stop || t.stop == Candidate(o, t.lowest.value)))))
  {
  }

  /** The price has reached the stop of an order that takes part. */
  predicate Breached(o: Stop, price: real) {
    TakesPart(o, price) && if o.side == Sell then o.stop >= price else o.stop <= price
  }

  lemma BreachTriggers(o: Stop, price: real)
    ensures Breached(o, price) <==> o.status != Triggered && Tick(o, price).status == Triggered
  {
    hide Tick;
    TickMeaning(o, price);
  }

  predicate IsGreatest(now: Option<real>, before: Option<real>, price: real) {
    && now.Some? && now.value >= price && (before.Some? ==> now.value >= before.value)
    && (now == Some(price) || now == before)
  }

  predicate IsLeast(now: Option<real>, before: Option<real>, price: real) {
    && now.Some? && now.value <= price && (before.Some? ==> now.value <= before.value)
    && (now == Some(price) || now == before)
  }

  // ---- the simulated pipeline: whole runs ----

  /** The best price for the order so far: the highest for a sell, the lowest for a buy. */
  predicate Best(side: Side, w: real, prices: seq<real>) {
    w in prices && forall i :: 0 <= i < |prices| ==> if side == Sell then prices[i] <= w else prices[i] >= w
  }

  /** The k-th price has come back from the best price before it by the delta, and does not better
      that price. */
  predicate ComesBack(side: Side, delta: real, prices: seq<real>, k: nat)
    requires k < |prices|
  {
    && (exists i :: 0 <= i < k && if side == Sell then prices[k] <= prices[i] else prices[k] >= prices[i])
    && (exists i :: 0 <= i < k &&
          if side == Sell then prices[i] - prices[k] >= delta else prices[k] - prices[i] >= delta)
  }

  /** The k-th price is the first to come back. */
  predicate FirstBack(side: Side, delta: real, prices: seq<real>, k: nat, price: real)
    requires k < |prices|
  {
    price == prices[k] && ComesBack(side, delta, prices, k)
    && forall j :: 0 <= j < k ==> !ComesBack(side, delta, prices, j)
  }

  /** No price has come back yet, and the watermark is the best one. */
  predicate Waiting(side: Side, delta: real, prices: seq<real>, watermark: Option<real>) {
    && (forall k :: 0 <= k < |prices| ==> !ComesBack(side, delta, prices, k))
    && (if prices == [] then watermark == None else watermark.Some? && Best(side, watermark.value, prices))
  }

  /** Later prices do not matter. */
  lemma ComesBackSoFar(side: Side, delta: real, prices: seq<real>, n: nat, k: nat)
    requires k < n <= |prices|
    ensures ComesBack(side, delta, prices[..n], k) == ComesBack(side, delta, prices, k)
  {
    var p := prices[..n];
    assert forall i :: 0 <= i <= k ==> p[i] == prices[i];
  }

  /** Coming back is coming back from the best price. */
  lemma BackFromBest(side: Side, delta: real, prices: seq<real>, n: nat, w: real)
    requires n < |prices| && Best(side, w, prices[..n])
    ensures ComesBack(side, delta, prices, n) <==>
      if side == Sell then prices[n] <= w && w - prices[n] >= delta else prices[n] >= w && prices[n] - w >= delta
  {
    var before := prices[..n];
    var i :| 0 <= i < n && before[i] == w;
    assert prices[i] == w && forall j :: 0 <= j < n ==> before[j] == prices[j];
  }

  lemma BestNext(side: Side, prices: seq<real>, w: real, price: real)
    requires Best(side, w, prices)
    ensures
      var better := if side == Sell then price > w else price < w;
      Best(side, if better then price else w, prices + [price])
  {
  }

  /** A trailing order is filled at the first price that has come back from the best one by the
      delta; until then its watermark is the best price. */
  lemma {:induction false} TrailMeaning(side: Side, delta: real, prices: seq<real>)
    ensures
      var t := TrailTicks(FreshTrail(side, delta), prices);
      && t.side == side && t.delta == delta
      && (t.filled == None ==> Waiting(side, delta, prices, t.watermark))
      && (t.filled.Some? ==> exists k: nat :: k < |prices| && FirstBack(side, delta, prices, k, t.filled.value))
    decreases |prices|
  {
    if prices != [] {
      hide ComesBack, Best;
      var n := |prices| - 1;
      var before := prices[..n];
      TrailMeaning(side, delta, before);
      forall k | 0 <= k < n
        ensures ComesBack(side, delta, before, k) == ComesBack(side, delta, prices, k)
      {
        ComesBackSoFar(side, delta, prices, n, k);
      }
      var t := TrailTicks(FreshTrail(side, delta), before);
      if t.filled.Some? {
        var k: nat :| k < n && FirstBack(side, delta, before, k, t.filled.value);
        assert FirstBack(side, delta, prices, k, t.filled.value);
      } else {
        OneMorePrice(side, delta, prices, t);
      }
    }
  }

  lemma OneMorePrice(side: Side, delta: real, prices: seq<real>, t: Trail)
    requires prices != [] && t.side == side && t.delta == delta && t.filled == None
    requires Waiting(side, delta, prices[..|prices| - 1], t.watermark)
    requires forall k :: 0 <= k < |prices| - 1 ==> !ComesBack(side, delta, prices, k)
    ensures
      var u := TrailTick(t, prices[|prices| - 1]);
      if u.filled == None then Waiting(side, delta, prices, u.watermark)
      else FirstBack(side, delta, prices, |prices| - 1, u.filled.value)
  {
    hide ComesBack, Best;
    var n := |prices| - 1;
    var before, price := prices[..n], prices[n];
    assert prices == before + [price];
    if n == 0 {
      FirstPrice(side, delta, prices);
    } else {
      BackFromBest(side, delta, prices, n, t.watermark.value);
      BestNext(side, before, t.watermark.value, price);
    }
  }

  lemma FirstPrice(side: Side, delta: real, prices: seq<real>)
    requires |prices| == 1
    ensures !ComesBack(side, delta, prices, 0) && Best(side, prices[0], prices)
  {
  }
}
