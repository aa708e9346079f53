/** The tick loops of src/trading/trailing_stop_processor.py and
    src/execution/simulated_pipeline.py over their stored orders. */
module TrailingEngines {
  import opened Options
  import opened TrailingMeaning
  import opened TrailingStops

  // ---- the trailing-stop processor ----

  class TrailingStopOrder {
    const id: string
    const symbol: string
    const side: Side
    const delta: real
    const deltaType: DeltaType
    const activation: Option<real>
    var status: Status
    var stopPrice: real
    var highest: Option<real>
    var lowest: Option<real>
    var trigger: Option<real>

    constructor (id: string, symbol: string, o: Stop)
      ensures this.id == id && this.symbol == symbol && View() == o
    {
      this.id, this.symbol := id, symbol;
      side, delta, deltaType, activation := o.side, o.delta, o.deltaType, o.activation;
      status, stopPrice, highest, lowest, trigger := o.status, o.stop, o.highest, o.lowest, o.trigger;
    }

    function View(): Stop
      reads this
    {
      Stop(side, delta, deltaType, activation, status, stopPrice, highest, lowest, trigger)
    }

    /** The body of the loop for an order of the right symbol. */
    method Apply(price: real) returns (fired: bool)
      modifies this
      ensures View() == Tick(old(View()), price)
      ensures fired == (old(status) != Triggered && status == Triggered) == Fires(old(View()), price)
    {
      hide Ratchet;
      fired := false;
      var active := Activate(price);
      if active {
        fired := Follow(price);
      }
    }

    /** One turn of the loop: an order of another symbol is passed over. */
    method Take(symbol: string, price: real) returns (fired: bool)
      modifies this
      ensures Ticked(this, symbol, price)
      ensures fired == (this.symbol == symbol && Fires(old(View()), price))
    {
      hide Tick, Fires;
      if this.symbol != symbol {
        return false;
      }
      fired := Apply(price);
    }

    /** Activation gating. */
    method Activate(price: real) returns (active: bool)
      modifies this`status
      ensures active == Activated(old(View()), price)
      ensures status == if active then Active else old(status)
    {
      if status != Active && status != Pending {
        return false;
      }
      if status == Pending {
        if activation.Some? {
          if side == Sell && price >= activation.value {
            status := Active;
          } else if side == Buy && price <= activation.value {
            status := Active;
          } else {
            return false;
          }
        } else {
          status := Active;
        }
      }
      active := true;
    }

    /** Stop breach or ratchet. */
    method Follow(price: real) returns (fired: bool)
      requires status == Active
      modifies this
      ensures View() == Ratchet(old(View()), price) && fired == (status == Triggered)
    {
      hide Candidate;
      fired := false;
      if side == Sell {
        if price <= stopPrice {
          status, trigger, fired := Triggered, Some(price), true;
        } else {
          var best := Highest(View(), price);
          var candidate := Candidate(View(), best);
          highest := Some(best);
          if candidate > stopPrice {
            stopPrice := candidate;
          }
        }
      } else {
        if price >= stopPrice {
          status, trigger, fired := Triggered, Some(price), true;
        } else {
          var best := Lowest(View(), price);
          var candidate := Candidate(View(), best);
          lowest := Some(best);
          if candidate < stopPrice {
            stopPrice := candidate;
          }
        }
      }
    }
  }

  class TrailingStopProcessor {
    var orders: seq<TrailingStopOrder>

    /** Ids are unique, so no order is stored twice. */
    predicate Valid()
      reads this
    {
      forall i, j :: 0 <= i < j < |orders| ==> orders[i].id != orders[j].id
    }

    constructor ()
      ensures Valid() && orders == []
    {
      orders := [];
    }

    /** register_order; false stands for the ValueError of a known id. */
    method Register(order: TrailingStopOrder) returns (ok: bool)
      requires Valid()
      modifies this
      ensures Valid() && ok == forall i :: 0 <= i < |old(orders)| ==> old(orders)[i].id != order.id
      ensures orders == if ok then old(orders) + [order] else old(orders)
    {
      for i := 0 to |orders|
        invariant orders == old(orders) && forall j :: 0 <= j < i ==> orders[j].id != order.id
      {
        if orders[i].id == order.id {
          return false;
        }
      }
      orders := orders + [order];
      ok := true;
    }

    function Views(): (r: seq<Stop>)
      reads this, orders
      ensures |r| == |orders|
    {
      seq(|orders|, i requires 0 <= i < |orders| reads this, orders => orders[i].View())
    }

    /** process_tick: every order of the symbol takes one tick, no other order changes, and the
        orders that fired are reported, each once and in order; None for the ValueError of a price
        at or below zero. */
    method ProcessTick(symbol: string, price: real) returns (fired: Option<seq<TrailingStopOrder>>)
      requires Valid()
      modifies orders
      ensures Valid() && fired.Some? == (price > 0.0)
      ensures forall o :: o in orders ==> if fired.Some? then Ticked(o, symbol, price) else Unticked(o)
      ensures fired.Some? ==> fired.value == FiredOrders(orders, old(Views()), symbol, price)
      ensures fired.Some? ==> FiredBreached(fired.value, orders, old(Views()), symbol, price)
    {
      if price <= 0.0 {
        return None;
      }
      hide Tick, FiredOrders, FiredBreached, Fires, TrailingStopOrder.View;
      FiredOrdersBreached(orders, Views(), symbol, price);
      var triggered := TickAll(symbol, price);
      fired := Some(triggered);
    }

    /** The loop over the stored orders. */
    method TickAll(symbol: string, price: real) returns (triggered: seq<TrailingStopOrder>)
      requires Valid()
      modifies orders
      ensures forall o :: o in orders ==> Ticked(o, symbol, price)
      ensures triggered == FiredOrders(orders, old(Views()), symbol, price)
    {
      hide Tick, FiredOrders, Fires, TrailingStopOrder.View;
      ghost var views := Views();
      NoneFired(orders, views, symbol, price);
      triggered := [];
      for i := 0 to |orders|
        invariant forall j :: 0 <= j < i ==> Ticked(orders[j], symbol, price)
        invariant forall j :: i <= j < |orders| ==> Unticked(orders[j])
        invariant triggered == FiredOrders(orders[..i], views[..i], symbol, price)
      {
        var order := orders[i];
        FiredStep(orders, views, symbol, price, i);
        assert forall j :: 0 <= j < |orders| && j != i ==> orders[j] != order;
        assert Unticked(order) && views[i] == order.View();
        var now := order.Take(symbol, price);
        if now {
          triggered := triggered + [order];
        }
      }
      assert orders[..|orders|] == orders && views[..|orders|] == views;
    }
  }

  twostate predicate Unticked(o: TrailingStopOrder)
    reads o
  {
    o.View() == old(o.View())
  }

  /** An order of the symbol takes the tick, and any other is left alone. */
  twostate predicate Ticked(o: TrailingStopOrder, symbol: string, price: real)
    reads o
  {
    if o.symbol == symbol then o.View() == Tick(old(o.View()), price) else Unticked(o)
  }

  /** The tick triggers the order. */
  predicate Fires(o: Stop, price: real) {
    o.status != Triggered && Tick(o, price).status == Triggered
  }

  /** The orders of the symbol that the tick triggers, in their own order. */
  function FiredOrders(orders: seq<TrailingStopOrder>, views: seq<Stop>, symbol: string, price: real)
    : seq<TrailingStopOrder>
    requires |orders| == |views|
  {
    if orders == [] then []
    else
      var n := |orders| - 1;
      FiredOrders(orders[..n], views[..n], symbol, price)
      + if orders[n].symbol == symbol && Fires(views[n], price) then [orders[n]] else []
  }

  /** In stored order, the orders of the symbol whose stops the price has reached. */
  ghost predicate FiredBreached(fired: seq<TrailingStopOrder>, orders: seq<TrailingStopOrder>, views: seq<Stop>,
                                symbol: string, price: real)
    requires |orders| == |views|
  {
    exists at: seq<nat> :: FiredAt(fired, at, orders, views, symbol, price)
  }

  /** The j-th of them is the order at[j]. */
  ghost predicate FiredAt(fired: seq<TrailingStopOrder>, at: seq<nat>, orders: seq<TrailingStopOrder>,
                          views: seq<Stop>, symbol: string, price: real)
    requires |orders| == |views|
  {
    && |at| == |fired|
    && (forall j :: 0 <= j < |at| ==> at[j] < |orders| && fired[j] == orders[at[j]])
    && (forall j, k :: 0 <= j < k < |at| ==> at[j] < at[k])
    && (forall i: nat :: i < |orders| ==> (i in at <==> orders[i].symbol == symbol && Breached(views[i], price)))
  }

  lemma {:induction false} FiredOrdersBreached(orders: seq<TrailingStopOrder>, views: seq<Stop>, symbol: string,
                                               price: real)
    requires |orders| == |views|
    ensures FiredBreached(FiredOrders(orders, views, symbol, price), orders, views, symbol, price)
    decreases |orders|
  {
    if orders == [] {
      assert FiredOrders(orders, views, symbol, price) == [];
      assert FiredAt([], [], orders, views, symbol, price);
    } else {
      hide FiredOrders, Breached;
      var n := |orders| - 1;
      FiredOrdersBreached(orders[..n], views[..n], symbol, price);
      var fired := FiredOrders(orders[..n], views[..n], symbol, price);
      var at :| FiredAt(fired, at, orders[..n], views[..n], symbol, price);
      hide FiredAt, Tick;
      FiredStep(orders, views, symbol, price, n);
      BreachTriggers(views[n], price);
      OneMoreFired(fired, at, orders, views, symbol, price);
      assert orders[..n + 1] == orders && views[..n + 1] == views;
      assert fired + [] == fired;
    }
  }

  lemma OneMoreFired(fired: seq<TrailingStopOrder>, at: seq<nat>, orders: seq<TrailingStopOrder>, views: seq<Stop>,
                     symbol: string, price: real)
    requires |orders| == |views| && orders != []
    requires var n := |orders| - 1; FiredAt(fired, at, orders[..n], views[..n], symbol, price)
    ensures
      var n := |orders| - 1;
      if orders[n].symbol == symbol && Breached(views[n], price)
      then FiredAt(fired + [orders[n]], at + [n], orders, views, symbol, price)
      else FiredAt(fired, at, orders, views, symbol, price)
  {
    hide Breached;
    var n := |orders| - 1;
    assert forall i :: 0 <= i < n ==> orders[..n][i] == orders[i] && views[..n][i] == views[i];
    assert n !in at;
  }

  lemma NoneFired(orders: seq<TrailingStopOrder>, views: seq<Stop>, symbol: string, price: real)
    requires |orders| == |views|
    ensures FiredOrders(orders[..0], views[..0], symbol, price) == []
  {
  }

  lemma FiredStep(orders: seq<TrailingStopOrder>, views: seq<Stop>, symbol: string, price: real, i: nat)
    requires i < |orders| == |views|
    ensures FiredOrders(orders[..i + 1], views[..i + 1], symbol, price)
         == FiredOrders(orders[..i], views[..i], symbol, price)
            + if orders[i].symbol == symbol && Fires(views[i], price) then [orders[i]] else []
  {
    hide Fires;
    assert orders[..i + 1][..i] == orders[..i] && views[..i + 1][..i] == views[..i];
  }

  // ---- the simulated pipeline ----

  datatype OrderType = Market | Limit | StopLoss | Trailing

  datatype FillStatus = Open | Filled | Withdrawn

  class Order {
    const id: string
    const symbol: string
    const side: Side
    const kind: OrderType
    const limit: Option<real>
    const stop: Option<real>
    const delta: Option<real>
    var watermark: Option<real>
    var status: FillStatus
    var filledPrice: Option<real>

    constructor (id: string, symbol: string, side: Side, kind: OrderType, limit: Option<real>, stop: Option<real>,
                 delta: Option<real>)
      ensures this.id == id && this.symbol == symbol && this.side == side && this.kind == kind
      ensures this.limit == limit && this.stop == stop && this.delta == delta
      ensures watermark == None && status == Open && filledPrice == None
    {
      this.id, this.symbol, this.side, this.kind := id, symbol, side, kind;
      this.limit, this.stop, this.delta := limit, stop, delta;
      watermark, status, filledPrice := None, Open, None;
    }

    function Delta(): real {
      if delta.Some? then delta.value else 0.0
    }

    /** A trailing order as the comparison of the engines sees it. */
    function View(): Trail
      reads this
    {
      Trail(side, Delta(), watermark, filledPrice)
    }

    /** _should_execute for the orders without a watermark. */
    function Crosses(price: real): bool
      requires kind != Trailing
    {
      match kind
      case Market => true
      case Limit => limit.Some? && (if side == Buy then price <= limit.value else price >= limit.value)
      case StopLoss => stop.Some? && (if side == Buy then price >= stop.value else price <= stop.value)
    }

    /** Whether the tick fills the open order whose view is given. */
    predicate Executes(before: Trail, price: real) {
      if kind == Trailing then Evaluate(before, price).1 else Crosses(price)
    }

    /** What each kind of order waits for: a limit buy for a price at most its limit, a stop buy for
        one at least its stop, a trailing sell for a fall by its delta from the best price, and the
        mirror images. */
    predicate Due(before: Trail, price: real) {
      match (kind, side)
      case (Market, _) => true
      case (Limit, Buy) => limit.Some? && limit.value >= price
      case (Limit, Sell) => limit.Some? && limit.value <= price
      case (StopLoss, Buy) => stop.Some? && stop.value <= price
      case (StopLoss, Sell) => stop.Some? && stop.value >= price
      case (Trailing, Buy) =>
        before.watermark.Some? && before.watermark.value <= price && price - before.watermark.value >= before.delta
      case (Trailing, Sell) =>
        before.watermark.Some? && before.watermark.value >= price && before.watermark.value - price >= before.delta
    }

    lemma ExecutesIffDue(before: Trail, price: real)
      requires before.side == side
      ensures Executes(before, price) <==> Due(before, price)
    {
    }

    predicate Coherent()
      reads this
    {
      status == Open ==> filledPrice == None
    }

    /** One tick for an open order. */
    method Meet(price: real) returns (executes: bool)
      requires status == Open && Coherent()
      modifies this
      ensures Coherent() && executes == (status == Filled)
      ensures kind == Trailing ==> View() == TrailTick(old(View()), price)
      ensures kind != Trailing ==> watermark == old(watermark)
      ensures kind == Trailing && delta == None ==>
        (executes <==> old(watermark).Some? && watermark == old(watermark))
      ensures executes == Executes(old(View()), price) == Due(old(View()), price)
      ensures status == (if executes then Filled else Open) && filledPrice == if executes then Some(price) else None
    {
      executes := false;
      ExecutesIffDue(View(), price);
      if kind == Trailing {
        executes := EvaluateTrailing(price);
      } else {
        executes := Crosses(price);
      }
      if executes {
        status, filledPrice := Filled, Some(price);
      }
    }

    method EvaluateTrailing(price: real) returns (fires: bool)
      modifies this`watermark
      ensures (watermark, fires) == Evaluate(old(View()), price)
    {
      if watermark.None? {
        watermark := Some(price);
        return false;
      }
      if side == Sell {
        if price > watermark.value {
          watermark := Some(price);
          return false;
        }
        fires := price <= watermark.value - Delta();
      } else {
        if price < watermark.value {
          watermark := Some(price);
          return false;
        }
        fires := price >= watermark.value + Delta();
      }
    }
  }

  /** order_id, execution_price. */
  datatype Report = Report(order: Order, price: real)

  class SimulatedExecutionPipeline {
    var orders: seq<Order>

    predicate Valid()
      reads this, orders
    {
      && (forall i, j :: 0 <= i < j < |orders| ==> orders[i].id != orders[j].id)
      && forall o :: o in orders ==> o.Coherent()
    }

    constructor ()
      ensures Valid() && orders == []
    {
      orders := [];
    }

    function Views(): (r: seq<Trail>)
      reads this, orders
      ensures |r| == |orders|
    {
      seq(|orders|, i requires 0 <= i < |orders| reads this, orders => orders[i].View())
    }

    function Statuses(): (r: seq<FillStatus>)
      reads this, orders
      ensures |r| == |orders|
    {
      seq(|orders|, i requires 0 <= i < |orders| reads this, orders => orders[i].status)
    }

    /** process_tick: open orders of the symbol take one tick, no other order changes, and the
        orders that were due are filled and reported at its price, each once and in order. */
    method ProcessTick(symbol: string, price: real) returns (reports: seq<Report>)
      requires Valid()
      modifies orders
      ensures Valid()
      ensures forall o :: o in orders ==> Met(o, symbol, price)
      ensures reports == FillReports(orders, old(Views()), old(Statuses()), symbol, price)
      ensures ReportsDue(reports, orders, old(Views()), old(Statuses()), symbol, price)
    {
      hide Evaluate, TrailTick, FillReports, ReportsDue;
      ghost var views, statuses := Views(), Statuses();
      FillReportsDue(orders, views, statuses, symbol, price);
      NoneFilled(orders, views, statuses, symbol, price);
      reports := [];
      for i := 0 to |orders|
        invariant Valid()
        invariant forall j :: 0 <= j < i ==> Met(orders[j], symbol, price)
        invariant forall j :: i <= j < |orders| ==> Untouched(orders[j])
        invariant reports == FillReports(orders[..i], views[..i], statuses[..i], symbol, price)
      {
        var order := orders[i];
        FillStep(orders, views, statuses, symbol, price, i);
        assert forall j :: 0 <= j < |orders| && j != i ==> orders[j] != order;
        assert Untouched(order) && views[i] == order.View() && statuses[i] == order.status;
        if order.status != Open || order.symbol != symbol {
          continue;
        }
        var executes := order.Meet(price);
        if executes {
          reports := reports + [Report(order, price)];
        }
      }
      assert orders[..|orders|] == orders && views[..|orders|] == views && statuses[..|orders|] == statuses;
    }
  }

  /** The open orders of the symbol that the tick fills, in their own order. */
  function FillReports(orders: seq<Order>, views: seq<Trail>, statuses: seq<FillStatus>, symbol: string, price: real)
    : seq<Report>
    requires |orders| == |views| == |statuses|
  {
    if orders == [] then []
    else
      var n := |orders| - 1;
      FillReports(orders[..n], views[..n], statuses[..n], symbol, price)
      + if orders[n].symbol == symbol && statuses[n] == Open && orders[n].Executes(views[n], price)
        then [Report(orders[n], price)] else []
  }

  /** The reports name, at the price and in stored order, the orders of the symbol that were open
      and due. */
  ghost predicate ReportsDue(reports: seq<Report>, orders: seq<Order>, views: seq<Trail>, statuses: seq<FillStatus>,
                             symbol: string, price: real)
    requires |orders| == |views| == |statuses|
  {
    exists at: seq<nat> :: ReportsAt(reports, at, orders, views, statuses, symbol, price)
  }

  /** The j-th report is that of the order at[j]. */
  ghost predicate ReportsAt(reports: seq<Report>, at: seq<nat>, orders: seq<Order>, views: seq<Trail>,
                            statuses: seq<FillStatus>, symbol: string, price: real)
    requires |orders| == |views| == |statuses|
  {
    && |at| == |reports|
    && (forall j :: 0 <= j < |at| ==> at[j] < |orders| && reports[j] == Report(orders[at[j]], price))
    && (forall j, k :: 0 <= j < k < |at| ==> at[j] < at[k])
    && (forall i: nat :: i < |orders| ==>
          (i in at <==> orders[i].symbol == symbol && statuses[i] == Open && orders[i].Due(views[i], price)))
  }

  lemma {:induction false} FillReportsDue(orders: seq<Order>, views: seq<Trail>, statuses: seq<FillStatus>,
                                          symbol: string, price: real)
    requires |orders| == |views| == |statuses|
    requires forall i :: 0 <= i < |orders| ==> views[i].side == orders[i].side
    ensures ReportsDue(FillReports(orders, views, statuses, symbol, price), orders, views, statuses, symbol, price)
    decreases |orders|
  {
    if orders == [] {
      assert FillReports(orders, views, statuses, symbol, price) == [];
      assert ReportsAt([], [], orders, views, statuses, symbol, price);
    } else {
      hide FillReports;
      var n := |orders| - 1;
      FillReportsDue(orders[..n], views[..n], statuses[..n], symbol, price);
      var reports := FillReports(orders[..n], views[..n], statuses[..n], symbol, price);
      var at :| ReportsAt(reports, at, orders[..n], views[..n], statuses[..n], symbol, price);
      orders[n].ExecutesIffDue(views[n], price);
      hide ReportsAt, Evaluate, Order.Executes, Order.Due;
      FillStep(orders, views, statuses, symbol, price, n);
      OneMoreReport(reports, at, orders, views, statuses, symbol, price);
      assert orders[..n + 1] == orders && views[..n + 1] == views && statuses[..n + 1] == statuses;
      assert reports + [] == reports;
    }
  }

  lemma OneMoreReport(reports: seq<Report>, at: seq<nat>, orders: seq<Order>, views: seq<Trail>,
                      statuses: seq<FillStatus>, symbol: string, price: real)
    requires |orders| == |views| == |statuses| && orders != []
    requires var n := |orders| - 1; ReportsAt(reports, at, orders[..n], views[..n], statuses[..n], symbol, price)
    ensures
      var n := |orders| - 1;
      var due := orders[n].symbol == symbol && statuses[n] == Open && orders[n].Due(views[n], price);
      if due then ReportsAt(reports + [Report(orders[n], price)], at + [n], orders, views, statuses, symbol, price)
      else ReportsAt(reports, at, orders, views, statuses, symbol, price)
  {
    var n := |orders| - 1;
    assert forall i :: 0 <= i < n ==> orders[..n][i] == orders[i] && views[..n][i] == views[i];
    assert forall i :: 0 <= i < n ==> statuses[..n][i] == statuses[i];
    assert n !in at;
  }

  lemma NoneFilled(orders: seq<Order>, views: seq<Trail>, statuses: seq<FillStatus>, symbol: string, price: real)
    requires |orders| == |views| == |statuses|
    ensures FillReports(orders[..0], views[..0], statuses[..0], symbol, price) == []
  {
  }

  lemma FillStep(orders: seq<Order>, views: seq<Trail>, statuses: seq<FillStatus>, symbol: string, price: real, i: nat)
    requires i < |orders| == |views| == |statuses|
    ensures FillReports(orders[..i + 1], views[..i + 1], statuses[..i + 1], symbol, price)
         == FillReports(orders[..i], views[..i], statuses[..i], symbol, price)
            + if orders[i].symbol == symbol && statuses[i] == Open && orders[i].Executes(views[i], price)
              then [Report(orders[i], price)] else []
  {
    hide Evaluate;
    assert orders[..i + 1][..i] == orders[..i] && views[..i + 1][..i] == views[..i];
    assert statuses[..i + 1][..i] == statuses[..i];
  }

  twostate predicate Untouched(o: Order)
    reads o
  {
    o.View() == old(o.View()) && o.status == old(o.status)
  }

  /** An open order of the symbol is filled at the price or stays open, with the watermark that a
      trailing order gets; any other is left alone. */
  twostate predicate Met(o: Order, symbol: string, price: real)
    reads o
  {
    if o.symbol != symbol || old(o.status) != Open then Untouched(o)
    else
      var executes := o.Executes(old(o.View()), price);
      && o.status == (if executes then Filled else Open)
      && o.filledPrice == (if executes then Some(price) else None)
      && (if o.kind == Trailing then o.View() == TrailTick(old(o.View()), price) else o.watermark == old(o.watermark))
  }
}
