/** The two trailing-stop engines, src/trading/trailing_stop_processor.py and the trailing part of
    src/execution/simulated_pipeline.py, and when they fire on the same tick. */
module TrailingStops {
  import opened Options

  datatype Side = Buy | Sell

  datatype Status = Active | Pending | Triggered | Cancelled

  datatype DeltaType = Amount | Percentage

  /** The fields of a TrailingStopOrder that a tick looks at or changes. */
  datatype Stop = Stop(side: Side, delta: real, deltaType: DeltaType, activation: Option<real>, status: Status,
                       stop: real, highest: Option<real>, lowest: Option<real>, trigger: Option<real>)

  // ---- the processor: one order, one tick ----

  function Activated(o: Stop, price: real): bool {
    match o.status
    case Active => true
    case Pending =>
      o.activation.None? || (if o.side == Sell then price >= o.activation.value else price <= o.activation.value)
    case _ => false
  }

  function Candidate(o: Stop, extreme: real): real {
    match (o.side, o.deltaType)
    case (Sell, Amount) => extreme - o.delta
    case (Sell, Percentage) => extreme * (1.0 - o.delta)
    case (Buy, Amount) => extreme + o.delta
    case (Buy, Percentage) => extreme * (1.0 + o.delta)
  }

  function Highest(o: Stop, price: real): real {
    if o.highest.None? || price > o.highest.value then price else o.highest.value
  }

  function Lowest(o: Stop, price: real): real {
    if o.lowest.None? || price < o.lowest.value then price else o.lowest.value
  }

  /** An active order meets a price: it triggers, or its stop is drawn after the best price. */
  function Ratchet(o: Stop, price: real): Stop {
    if o.side == Sell then
      if price <= o.stop then o.(status := Triggered, trigger := Some(price))
      else
        var c := Candidate(o, Highest(o, price));
        o.(highest := Some(Highest(o, price)), stop := if c > o.stop then c else o.stop)
    else
      if price >= o.stop then o.(status := Triggered, trigger := Some(price))
      else
        var c := Candidate(o, Lowest(o, price));
        o.(lowest := Some(Lowest(o, price)), stop := if c < o.stop then c else o.stop)
  }

  function Tick(o: Stop, price: real): Stop {
    if Activated(o, price) then Ratchet(o.(status := Active), price) else o
  }

  function Ticks(o: Stop, prices: seq<real>): Stop {
    if prices == [] then o else Tick(Ticks(o, prices[..|prices|-1]), prices[|prices|-1])
  }

  /** The ratchet never loosens: a sell stop never falls and a buy stop never rises. */
  lemma {:induction false} RatchetMonotone(o: Stop, prices: seq<real>, k: nat)
    requires k <= |prices|
    ensures Ticks(o, prices).side == o.side
    ensures if o.side == Sell then Ticks(o, prices[..k]).stop <= Ticks(o, prices).stop
            else Ticks(o, prices[..k]).stop >= Ticks(o, prices).stop
    decreases |prices|
  {
    if k == |prices| {
      assert prices[..k] == prices;
      if k > 0 {
        RatchetMonotone(o, prices[..k - 1], k - 1);
      }
    } else {
      assert prices[..|prices| - 1][..k] == prices[..k];
      RatchetMonotone(o, prices[..|prices| - 1], k);
    }
  }

  // ---- the simulated pipeline: one trailing order, one tick ----

  /** A trailing order; `filled` is its fill price. */
  datatype Trail = Trail(side: Side, delta: real, watermark: Option<real>, filled: Option<real>)

  /** _evaluate_trailing_stop: the new watermark and whether the order executes. */
  function Evaluate(o: Trail, price: real): (Option<real>, bool) {
    if o.watermark.None? then (Some(price), false)
    else if o.side == Sell then
      if price > o.watermark.value then (Some(price), false)
      else (o.watermark, price <= o.watermark.value - o.delta)
    else
      if price < o.watermark.value then (Some(price), false)
      else (o.watermark, price >= o.watermark.value + o.delta)
  }

  function TrailTick(o: Trail, price: real): Trail {
    if o.filled.Some? then o
    else
      var (w, fires) := Evaluate(o, price);
      o.(watermark := w, filled := if fires then Some(price) else None)
  }

  function TrailTicks(o: Trail, prices: seq<real>): Trail {
    if prices == [] then o else TrailTick(TrailTicks(o, prices[..|prices|-1]), prices[|prices|-1])
  }

  // ---- the two agree ----

  /** A fresh amount-delta order in both engines. */
  function FreshStop(side: Side, delta: real, stop: real): Stop {
    Stop(side, delta, Amount, None, Active, stop, None, None, None)
  }

  function FreshTrail(side: Side, delta: real): Trail {
    Trail(side, delta, None, None)
  }

  /** Both have fired at the same price, or neither has. */
  predicate SameFate(a: Stop, b: Trail) {
    (a.status == Triggered <==> b.filled.Some?) && (a.status == Triggered ==> a.trigger == b.filled)
  }

  function Offset(side: Side, watermark: real, delta: real): real {
    if side == Sell then watermark - delta else watermark + delta
  }

  /** The stop follows the watermark; where it does not, both stops are out of reach of any price. */
  predicate InStep(a: Stop, b: Trail) {
    && SameFate(a, b) && a.side == b.side && a.delta == b.delta && a.delta > 0.0 && a.deltaType == Amount
    && (a.status == Active || a.status == Triggered)
    && b.watermark.Some?
    && (a.status == Active ==> (if a.side == Sell then a.highest else a.lowest) == b.watermark)
    && (a.status == Active ==>
          var s := Offset(a.side, b.watermark.value, a.delta);
          a.stop == s || (a.side == Sell && s <= a.stop <= 0.0))
  }

  predicate Positive(prices: seq<real>) {
    forall i :: 0 <= i < |prices| ==> prices[i] > 0.0
  }

  /** The stop an order starts with is no tighter than the first price allows; a sell stop at or
      below zero cannot be reached at all. */
  predicate LooseStart(side: Side, delta: real, stop: real, first: real) {
    if side == Sell then stop <= first - delta || stop <= 0.0 else stop >= first + delta
  }

  lemma StepInStep(a: Stop, b: Trail, price: real)
    requires InStep(a, b) && price > 0.0
    ensures InStep(Tick(a, price), TrailTick(b, price))
  {}

  lemma FirstInStep(side: Side, delta: real, stop: real, first: real)
    requires delta > 0.0 && first > 0.0 && LooseStart(side, delta, stop, first)
    ensures InStep(Tick(FreshStop(side, delta, stop), first), TrailTick(FreshTrail(side, delta), first))
  {}

  lemma {:induction false} RunsInStep(side: Side, delta: real, stop: real, prices: seq<real>)
    requires delta > 0.0 && prices != [] && Positive(prices) && LooseStart(side, delta, stop, prices[0])
    ensures InStep(Ticks(FreshStop(side, delta, stop), prices), TrailTicks(FreshTrail(side, delta), prices))
    decreases |prices|
  {
    var n := |prices| - 1;
    if n == 0 {
      assert prices[..0] == [];
      FirstInStep(side, delta, stop, prices[0]);
    } else {
      RunsInStep(side, delta, stop, prices[..n]);
      var a, b := FreshStop(side, delta, stop), FreshTrail(side, delta);
      StepInStep(Ticks(a, prices[..n]), TrailTicks(b, prices[..n]), prices[n]);
    }
  }

  /** After every prefix of the prices the engines have fired alike. */
  ghost predicate FireAlike(side: Side, delta: real, stop: real, prices: seq<real>) {
    forall k :: 0 <= k <= |prices| ==>
      SameFate(Ticks(FreshStop(side, delta, stop), prices[..k]), TrailTicks(FreshTrail(side, delta), prices[..k]))
  }

  /** The engines fire on the same tick, or never, over every continuation of the first price,
      exactly when the order starts loose enough. */
  lemma FireAlikeIffLoose(side: Side, delta: real, stop: real, first: real)
    requires delta > 0.0 && first > 0.0
    ensures (forall rest :: Positive(rest) ==> FireAlike(side, delta, stop, [first] + rest)) <==>
      LooseStart(side, delta, stop, first)
  {
    var a, b := FreshStop(side, delta, stop), FreshTrail(side, delta);
    if LooseStart(side, delta, stop, first) {
      forall rest | Positive(rest)
        ensures FireAlike(side, delta, stop, [first] + rest)
      {
        forall k | 0 <= k <= |rest| + 1
          ensures SameFate(Ticks(a, ([first] + rest)[..k]), TrailTicks(b, ([first] + rest)[..k]))
        {
          if k > 0 {
            RunsInStep(side, delta, stop, ([first] + rest)[..k]);
          }
        }
      }
    } else {
      TightDiffers(side, delta, stop, first);
    }
  }

  /** A tighter stop is hit at the first price, or at its own price, where the pipeline does not
      fire yet. */
  lemma TightDiffers(side: Side, delta: real, stop: real, first: real)
    requires delta > 0.0 && first > 0.0 && !LooseStart(side, delta, stop, first)
    ensures exists rest :: Positive(rest) && !FireAlike(side, delta, stop, [first] + rest)
  {
    hide FireAlike;
    if (if side == Sell then first <= stop else first >= stop) {
      var rest: seq<real> := [];
      assert Positive(rest);
      TightAtOnce(side, delta, stop, first);
    } else {
      var rest := [stop];
      assert Positive(rest);
      TightNext(side, delta, stop, first);
    }
  }

  lemma TightAtOnce(side: Side, delta: real, stop: real, first: real)
    requires if side == Sell then first <= stop else first >= stop
    ensures !FireAlike(side, delta, stop, [first] + [])
  {
    hide Tick, TrailTick, SameFate, FreshStop, FreshTrail, FireAlike;
    var none: seq<real> := [];
    FirstTick(side, delta, stop, first);
    HitAtOnce(side, delta, stop, first);
    assert ([first] + none)[..1] == [first];
    UnlikeAt(side, delta, stop, [first] + none, 1);
  }

  lemma TightNext(side: Side, delta: real, stop: real, first: real)
    requires delta > 0.0 && !LooseStart(side, delta, stop, first) && if side == Sell then first > stop else first < stop
    ensures !FireAlike(side, delta, stop, [first] + [stop])
  {
    hide Tick, TrailTick, SameFate, FreshStop, FreshTrail, FireAlike, LooseStart;
    var two := [first] + [stop];
    FirstTick(side, delta, stop, first);
    HitNext(side, delta, stop, first);
    OneMoreTick(FreshStop(side, delta, stop), FreshTrail(side, delta), [first], stop);
    assert two[..2] == two;
    UnlikeAt(side, delta, stop, two, 2);
  }

  lemma FirstTick(side: Side, delta: real, stop: real, first: real)
    ensures
      var a, b := FreshStop(side, delta, stop), FreshTrail(side, delta);
      Ticks(a, [first]) == Tick(a, first) && TrailTicks(b, [first]) == TrailTick(b, first)
  {
    hide Tick, TrailTick, FreshStop, FreshTrail;
    var a, b := FreshStop(side, delta, stop), FreshTrail(side, delta);
    var none: seq<real> := [];
    NoTicks(a, b);
    OneMoreTick(a, b, none, first);
    assert none + [first] == [first];
  }

  lemma HitAtOnce(side: Side, delta: real, stop: real, first: real)
    requires if side == Sell then first <= stop else first >= stop
    ensures !SameFate(Tick(FreshStop(side, delta, stop), first), TrailTick(FreshTrail(side, delta), first))
  {
  }

  lemma HitNext(side: Side, delta: real, stop: real, first: real)
    requires delta > 0.0 && !LooseStart(side, delta, stop, first) && if side == Sell then first > stop else first < stop
    ensures
      var a, b := Tick(FreshStop(side, delta, stop), first), TrailTick(FreshTrail(side, delta), first);
      !SameFate(Tick(a, stop), TrailTick(b, stop))
  {
    var a := Tick(FreshStop(side, delta, stop), first);
    assert a.stop == stop && a.status == Active;
  }

  lemma OneMoreTick(a: Stop, b: Trail, prices: seq<real>, price: real)
    ensures Ticks(a, prices + [price]) == Tick(Ticks(a, prices), price)
    ensures TrailTicks(b, prices + [price]) == TrailTick(TrailTicks(b, prices), price)
  {
    hide Tick, TrailTick;
    assert (prices + [price])[..|prices|] == prices;
  }

  lemma NoTicks(a: Stop, b: Trail)
    ensures Ticks(a, []) == a && TrailTicks(b, []) == b
  {
  }

  lemma UnlikeAt(side: Side, delta: real, stop: real, prices: seq<real>, k: nat)
    requires k <= |prices|
    requires
      var a, b := FreshStop(side, delta, stop), FreshTrail(side, delta);
      !SameFate(Ticks(a, prices[..k]), TrailTicks(b, prices[..k]))
    ensures !FireAlike(side, delta, stop, prices)
  {}
}
