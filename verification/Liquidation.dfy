/** src/risk/margin_calculator.py and src/risk/liquidation_engine.py: solvency and the orders that
    restore it. */
module Liquidation {
  import opened Options
  import opened Reals

  /** The maintenance margin rate is positive. */
  datatype Position = Position(symbol: string, size: real, entry: real, rate: real)

  datatype Account = Account(id: string, balance: real, positions: seq<Position>)

  type Marks = map<string, real>

  predicate ValidPositions(ps: seq<Position>) {
    forall i :: 0 <= i < |ps| ==> ps[i].rate > 0.0
  }

  /** Every active position has a mark price. */
  predicate Priced(ps: seq<Position>, marks: Marks) {
    forall i :: 0 <= i < |ps| && ps[i].size != 0.0 ==> ps[i].symbol in marks
  }

  /** The mark price, for active positions. */
  function Mark(p: Position, marks: Marks): real {
    if p.symbol in marks then marks[p.symbol] else 0.0
  }

  lemma TimesLaws(a: real, b: real, c: real)
    ensures Times(a, b) == Times(b, a) && Times(a + b, c) == Times(a, c) + Times(b, c)
    ensures Times(a - b, c) == Times(a, c) - Times(b, c) && Times(0.0, c) == 0.0
    ensures Times(Times(a, b), c) == Times(a, Times(b, c)) && Times(-a, c) == -Times(a, c)
    ensures b != 0.0 ==> Times(a / b, b) == a
  {}

  lemma TimesSign(a: real, b: real)
    requires a >= 0.0 && b > 0.0
    ensures Times(a, b) >= 0.0 && (a > 0.0 ==> Times(a, b) > 0.0)
    ensures a / b >= 0.0 && (a > 0.0 ==> a / b > 0.0)
  {}

  lemma TimesMonotone(a: real, b: real, c: real)
    requires a <= b && c >= 0.0
    ensures Times(a, c) <= Times(b, c)
  {}

  function Pnl(p: Position, marks: Marks): real {
    Times(Mark(p, marks) - p.entry, p.size)
  }

  /** The margin one unit of the position ties up. */
  function UnitMargin(p: Position, marks: Marks): real {
    Times(Mark(p, marks), p.rate)
  }

  function Margin(p: Position, marks: Marks): real {
    Times(Abs(p.size), UnitMargin(p, marks))
  }

  function TotalPnl(ps: seq<Position>, marks: Marks): real {
    if ps == [] then 0.0 else TotalPnl(ps[..|ps|-1], marks) + Pnl(ps[|ps|-1], marks)
  }

  function TotalMargin(ps: seq<Position>, marks: Marks): real {
    if ps == [] then 0.0 else TotalMargin(ps[..|ps|-1], marks) + Margin(ps[|ps|-1], marks)
  }

  function Equity(a: Account, marks: Marks): real {
    a.balance + TotalPnl(a.positions, marks)
  }

  datatype MarginEvaluation = MarginEvaluation(isSolvent: bool, equity: real, margin: real, shortfall: real)

  /** evaluate_solvency; None for the KeyError of a missing mark price. */
  /** Both totals are sums over the positions, taken together in any parts. */
  lemma {:induction false} TotalsAdd(ps: seq<Position>, qs: seq<Position>, marks: Marks)
    ensures TotalPnl(ps + qs, marks) == TotalPnl(ps, marks) + TotalPnl(qs, marks)
    ensures TotalMargin(ps + qs, marks) == TotalMargin(ps, marks) + TotalMargin(qs, marks)
    decreases |qs|
  {
    hide Pnl, Margin;
    if qs == [] {
      assert ps + qs == ps;
    } else {
      var n := |qs| - 1;
      TotalsAdd(ps, qs[..n], marks);
      assert (ps + qs)[..|ps + qs| - 1] == ps + qs[..n];
    }
  }

  /** One priced position counts its price move times its size, and the margin rate of its value. */
  lemma TotalsOfOne(p: Position, marks: Marks)
    requires p.symbol in marks
    ensures TotalPnl([p], marks) == (marks[p.symbol] - p.entry) * p.size
    ensures TotalMargin([p], marks) == (if p.size < 0.0 then -p.size else p.size) * (marks[p.symbol] * p.rate)
  {
    assert [p][..0] == [];
    assert TotalPnl([], marks) == 0.0 && TotalMargin([], marks) == 0.0;
  }

  method EvaluateSolvency(a: Account, marks: Marks) returns (r: Option<MarginEvaluation>)
    ensures r.Some? == Priced(a.positions, marks)
    ensures r.Some? ==>
      && r.value.equity == Equity(a, marks) && r.value.margin == TotalMargin(a.positions, marks)
      && r.value.isSolvent == (r.value.equity >= r.value.margin)
      && r.value.shortfall == if r.value.isSolvent then 0.0 else r.value.margin - r.value.equity
  {
    hide Times;
    var ps := a.positions;
    var pnl, margin := 0.0, 0.0;
    for i := 0 to |ps|
      invariant forall j :: 0 <= j < i && ps[j].size != 0.0 ==> ps[j].symbol in marks
      invariant pnl == TotalPnl(ps[..i], marks) && margin == TotalMargin(ps[..i], marks)
    {
      assert ps[..i + 1][..i] == ps[..i];
      if ps[i].size == 0.0 {
        TimesLaws(0.0, 0.0, UnitMargin(ps[i], marks));
        TimesLaws(0.0, Mark(ps[i], marks) - ps[i].entry, Mark(ps[i], marks) - ps[i].entry);
        continue;
      }
      if ps[i].symbol !in marks {
        return None;
      }
      var price := marks[ps[i].symbol];
      TimesLaws(Abs(ps[i].size), price, ps[i].rate);
      pnl := pnl + Times(price - ps[i].entry, ps[i].size);
      margin := margin + Times(Times(Abs(ps[i].size), price), ps[i].rate);
    }
    assert ps[..|ps|] == ps;
    var equity := a.balance + pnl;
    var solvent := equity >= margin;
    r := Some(MarginEvaluation(solvent, equity, margin, if solvent then 0.0 else margin - equity));
  }

  // ---- how much of each position is closed ----

  /** The volume closed of one position while `left` of the shortfall remains. */
  function Volume(p: Position, marks: Marks, left: real): real {
    var unit := UnitMargin(p, marks);
    if left <= 0.0 || p.size == 0.0 || unit <= 0.0 then 0.0 else Min(Abs(p.size), left / unit)
  }

  /** The shortfall that remains after the positions so far. */
  function Left(ps: seq<Position>, marks: Marks, shortfall: real): real {
    if ps == [] then shortfall
    else
      var p, left := ps[|ps|-1], Left(ps[..|ps|-1], marks, shortfall);
      left - Times(Volume(p, marks, left), UnitMargin(p, marks))
  }

  /** The volume closed of position i. */
  function VolumeOf(ps: seq<Position>, marks: Marks, shortfall: real, i: nat): real
    requires i < |ps|
  {
    Volume(ps[i], marks, Left(ps[..i], marks, shortfall))
  }

  datatype Side = Buy | Sell

  datatype Event = Event(account: string, symbol: string, side: Side, price: real, volume: real)

  function EventOf(id: string, p: Position, marks: Marks, volume: real): Event {
    Event(id, p.symbol, if p.size > 0.0 then Sell else Buy, Mark(p, marks), volume)
  }

  /** One event for each position of which something is closed. */
  function Events(id: string, ps: seq<Position>, marks: Marks, shortfall: real): seq<Event> {
    if ps == [] then []
    else
      var n := |ps| - 1;
      var v := Volume(ps[n], marks, Left(ps[..n], marks, shortfall));
      Events(id, ps[..n], marks, shortfall) + (if v > 0.0 then [EventOf(id, ps[n], marks, v)] else [])
  }

  /** _generate_liquidation_events. */
  method GenerateEvents(a: Account, marks: Marks, shortfall: real) returns (events: seq<Event>)
    requires ValidPositions(a.positions) && Priced(a.positions, marks)
    ensures events == Events(a.id, a.positions, marks, shortfall)
  {
    hide Times;
    var ps := a.positions;
    events := [];
    var left := shortfall;
    for i := 0 to |ps|
      invariant events == Events(a.id, ps[..i], marks, shortfall) && left == Left(ps[..i], marks, shortfall)
    {
      assert ps[..i + 1][..i] == ps[..i];
      if left <= 0.0 {
        Finished(a.id, ps, marks, shortfall, i);
        return;
      }
      var unit := UnitMargin(ps[i], marks);
      TimesLaws(0.0, 0.0, unit);
      if ps[i].size == 0.0 || unit <= 0.0 {
        continue;
      }
      var volume := Min(Abs(ps[i].size), left / unit);
      TimesSign(left, unit);
      if volume > 0.0 {
        events := events + [EventOf(a.id, ps[i], marks, volume)];
        left := left - Times(volume, unit);
      }
    }
    assert ps[..|ps|] == ps;
  }

  /** Once the shortfall is covered, nothing more is closed. */
  lemma {:induction false} Finished(id: string, ps: seq<Position>, marks: Marks, shortfall: real, i: nat)
    requires i <= |ps| && Left(ps[..i], marks, shortfall) <= 0.0
    ensures Events(id, ps, marks, shortfall) == Events(id, ps[..i], marks, shortfall)
    ensures Left(ps, marks, shortfall) == Left(ps[..i], marks, shortfall)
    decreases |ps|
  {
    hide Times;
    if i == |ps| {
      assert ps[..i] == ps;
    } else {
      var n := |ps| - 1;
      assert ps[..n][..i] == ps[..i];
      Finished(id, ps[..n], marks, shortfall, i);
      TimesLaws(0.0, 0.0, UnitMargin(ps[n], marks));
    }
  }

  // ---- what the events achieve ----

  /** The margin of the positions that tie up any. */
  function CoverableMargin(ps: seq<Position>, marks: Marks): real {
    if ps == [] then 0.0
    else
      var p, rest := ps[|ps|-1], CoverableMargin(ps[..|ps|-1], marks);
      if UnitMargin(p, marks) > 0.0 then rest + Margin(p, marks) else rest
  }

  /** No position is closed by more than its size. */
  lemma VolumeBounds(p: Position, marks: Marks, left: real)
    ensures 0.0 <= Volume(p, marks, left) <= Abs(p.size)
    ensures left > 0.0 && p.size != 0.0 && UnitMargin(p, marks) > 0.0 ==> Volume(p, marks, left) > 0.0
  {
    hide Times;
    if left > 0.0 && UnitMargin(p, marks) > 0.0 {
      TimesSign(left, UnitMargin(p, marks));
    }
  }

  /** What is relieved is exactly the shortfall or, when that is less, all the margin there is. */
  lemma {:induction false} LeftIsExact(ps: seq<Position>, marks: Marks, shortfall: real)
    requires shortfall >= 0.0
    ensures CoverableMargin(ps, marks) >= 0.0
    ensures Left(ps, marks, shortfall) == shortfall - Min(shortfall, CoverableMargin(ps, marks))
    decreases |ps|
  {
    hide Times;
    if ps != [] {
      var n := |ps| - 1;
      var p := ps[n];
      LeftIsExact(ps[..n], marks, shortfall);
      var left, unit := Left(ps[..n], marks, shortfall), UnitMargin(p, marks);
      TimesLaws(0.0, 0.0, unit);
      if unit > 0.0 {
        TimesSign(Abs(p.size), unit);
        TimesSign(left, unit);
        TimesLaws(left, unit, 0.0);
        if Abs(p.size) <= left / unit {
          TimesMonotone(Abs(p.size), left / unit, unit);
        } else {
          TimesMonotone(left / unit, Abs(p.size), unit);
        }
      }
    }
  }

  // ---- the account after the events are executed ----

  /** The positions after an event list, the cash and the relieved margin it brought, and the
      events that found no position. */
  datatype Execution = Execution(positions: seq<Position>, cash: real, relief: real, unspent: seq<Event>)

  /** A sale lowers the size of a position and a purchase raises it. */
  function Applied(p: Position, e: Event): Position {
    p.(size := if e.side.Sell? then p.size - e.volume else p.size + e.volume)
  }

  /** The events are executed over the positions in order, each on the next open position of its
      symbol, at its own price. */
  function Execute(ps: seq<Position>, events: seq<Event>): (x: Execution)
    ensures |x.positions| == |ps|
  {
    if ps == [] then Execution([], 0.0, 0.0, events)
    else
      var n := |ps| - 1;
      ExecuteOne(Execute(ps[..n], events), ps[n])
  }

  function ExecuteOne(x: Execution, p: Position): Execution {
    if x.unspent != [] && x.unspent[0].symbol == p.symbol && p.size != 0.0 then
      var e := x.unspent[0];
      var q := Applied(p, e);
      Execution(x.positions + [q], x.cash + Times(e.price - p.entry, p.size - q.size),
                x.relief + Times(e.volume, Times(e.price, p.rate)), x.unspent[1..])
    else x.(positions := x.positions + [p])
  }

  function Executed(a: Account, events: seq<Event>): Account {
    var x := Execute(a.positions, events);
    Account(a.id, a.balance + x.cash, x.positions)
  }

  /** Closing part of a position moves its size towards zero. */
  function Reduced(p: Position, volume: real): Position {
    p.(size := if p.size > 0.0 then p.size - volume else p.size + volume)
  }

  lemma ReduceOne(p: Position, marks: Marks, volume: real)
    requires 0.0 <= volume <= Abs(p.size)
    ensures var q := Reduced(p, volume);
      && Pnl(q, marks) + Times(Mark(p, marks) - p.entry, p.size - q.size) == Pnl(p, marks)
      && Margin(q, marks) == Margin(p, marks) - Times(volume, UnitMargin(p, marks))
      && Abs(q.size) == Abs(p.size) - volume
  {
    hide Times;
    var q := Reduced(p, volume);
    var d := Mark(p, marks) - p.entry;
    TimesLaws(q.size, p.size - q.size, d);
    TimesLaws(q.size, d, 0.0);
    TimesLaws(p.size - q.size, d, 0.0);
    TimesLaws(p.size, d, 0.0);
    TimesLaws(Abs(p.size), volume, UnitMargin(p, marks));
  }

  /** The events of the first k positions come first. */
  lemma {:induction false} EventsPrefix(id: string, ps: seq<Position>, marks: Marks, shortfall: real, k: nat)
    requires k <= |ps|
    ensures Events(id, ps[..k], marks, shortfall) <= Events(id, ps, marks, shortfall)
    decreases |ps|
  {
    if k == |ps| {
      assert ps[..k] == ps;
    } else {
      assert ps[..|ps|-1][..k] == ps[..k];
      EventsPrefix(id, ps[..|ps|-1], marks, shortfall, k);
    }
  }

  /** Only positions with a positive mark price are closed, at that price. */
  lemma {:induction false} EventPriced(id: string, ps: seq<Position>, marks: Marks, shortfall: real, e: Event)
    requires ValidPositions(ps) && e in Events(id, ps, marks, shortfall)
    ensures e.symbol in marks && e.price == marks[e.symbol] > 0.0
    decreases |ps|
  {
    hide Times;
    var n := |ps| - 1;
    if e in Events(id, ps[..n], marks, shortfall) {
      EventPriced(id, ps[..n], marks, shortfall, e);
    } else {
      PositiveUnit(ps[n], marks);
    }
  }

  lemma PositiveUnit(p: Position, marks: Marks)
    requires p.rate > 0.0
    ensures UnitMargin(p, marks) > 0.0 <==> Mark(p, marks) > 0.0
  {
  }

  /** The events of the first k positions, executed over them, are spent on the positions they
      were made for. */
  ghost predicate Played(id: string, ps: seq<Position>, marks: Marks, shortfall: real, k: nat)
    requires k <= |ps|
  {
    var all, x := Events(id, ps, marks, shortfall), Execute(ps[..k], Events(id, ps, marks, shortfall));
    var done := Events(id, ps[..k], marks, shortfall);
    && done <= all && x.unspent == all[|done|..]
    && (forall i :: 0 <= i < k ==> x.positions[i] == Reduced(ps[i], VolumeOf(ps, marks, shortfall, i)))
    && x.relief == shortfall - Left(ps[..k], marks, shortfall)
    && TotalPnl(x.positions, marks) + x.cash == TotalPnl(ps[..k], marks)
    && TotalMargin(x.positions, marks) == TotalMargin(ps[..k], marks) - x.relief
  }

  /** The next event is for position k exactly if something of it is to be closed: a skipped
      position has no price to close at, no size, or comes after the last event. */
  lemma NextEvent(id: string, ps: seq<Position>, marks: Marks, shortfall: real, k: nat)
    requires ValidPositions(ps) && k < |ps|
    ensures
      var all, done := Events(id, ps, marks, shortfall), Events(id, ps[..k], marks, shortfall);
      var v := VolumeOf(ps, marks, shortfall, k);
      && |done| <= |all|
      && (if v > 0.0 then |done| < |all| && all[|done|] == EventOf(id, ps[k], marks, v) && ps[k].size != 0.0
          else |done| == |all| || ps[k].size == 0.0 || all[|done|].symbol != ps[k].symbol)
      && Events(id, ps[..k + 1], marks, shortfall) == done + (if v > 0.0 then [EventOf(id, ps[k], marks, v)] else [])
  {
    hide Times, UnitMargin, Left;
    var all, done := Events(id, ps, marks, shortfall), Events(id, ps[..k], marks, shortfall);
    var v, left := VolumeOf(ps, marks, shortfall, k), Left(ps[..k], marks, shortfall);
    EventsPrefix(id, ps, marks, shortfall, k);
    EventsPrefix(id, ps, marks, shortfall, k + 1);
    assert ps[..k + 1][..k] == ps[..k];
    VolumeBounds(ps[k], marks, left);
    if v > 0.0 {
      assert Events(id, ps[..k + 1], marks, shortfall)[|done|] == EventOf(id, ps[k], marks, v);
    } else if left <= 0.0 {
      Finished(id, ps, marks, shortfall, k);
    } else if |done| < |all| && ps[k].size != 0.0 {
      EventPriced(id, ps, marks, shortfall, all[|done|]);
      PositiveUnit(ps[k], marks);
    }
  }

  lemma PlayedStep(id: string, ps: seq<Position>, marks: Marks, shortfall: real, k: nat)
    requires ValidPositions(ps) && k < |ps| && Played(id, ps, marks, shortfall, k)
    ensures Played(id, ps, marks, shortfall, k + 1)
  {
    hide Times, Pnl, Margin, UnitMargin, Volume, Reduced, Abs, Mark, Events, Left, TotalPnl, TotalMargin, ExecuteOne,
         EventOf;
    var all, done := Events(id, ps, marks, shortfall), Events(id, ps[..k], marks, shortfall);
    var p, v := ps[k], VolumeOf(ps, marks, shortfall, k);
    var x, y := Execute(ps[..k], all), Execute(ps[..k + 1], all);
    assert ps[..k + 1][..k] == ps[..k] && y == ExecuteOne(x, p);
    NextEvent(id, ps, marks, shortfall, k);
    EventsPrefix(id, ps, marks, shortfall, k + 1);
    VolumeBounds(p, marks, Left(ps[..k], marks, shortfall));
    PlayOne(id, x, p, marks, v);
    PlayedTotals(ps[..k], p, x, y, marks, shortfall, v);
    assert ps[..k] + [p] == ps[..k + 1];
    assert y.unspent == all[|Events(id, ps[..k + 1], marks, shortfall)|..];
  }

  /** The totals move with the last position. */
  lemma PlayedTotals(ps: seq<Position>, p: Position, x: Execution, y: Execution, marks: Marks, shortfall: real, v: real)
    requires v == Volume(p, marks, Left(ps, marks, shortfall))
    requires y.positions == x.positions + [Reduced(p, v)]
    requires y.cash == x.cash + Times(Mark(p, marks) - p.entry, p.size - Reduced(p, v).size)
    requires y.relief == x.relief + Times(v, UnitMargin(p, marks))
    requires x.relief == shortfall - Left(ps, marks, shortfall)
    requires TotalPnl(x.positions, marks) + x.cash == TotalPnl(ps, marks)
    requires TotalMargin(x.positions, marks) == TotalMargin(ps, marks) - x.relief
    ensures y.relief == shortfall - Left(ps + [p], marks, shortfall)
    ensures TotalPnl(y.positions, marks) + y.cash == TotalPnl(ps + [p], marks)
    ensures TotalMargin(y.positions, marks) == TotalMargin(ps + [p], marks) - y.relief
  {
    hide Times, Pnl, Margin, UnitMargin, Volume, Reduced, Abs, Mark, Left, TotalPnl, TotalMargin;
    VolumeBounds(p, marks, Left(ps, marks, shortfall));
    ReduceOne(p, marks, v);
    Append(ps, p, marks, shortfall);
    Append(x.positions, Reduced(p, v), marks, shortfall);
  }

  lemma Append(ps: seq<Position>, p: Position, marks: Marks, shortfall: real)
    ensures TotalPnl(ps + [p], marks) == TotalPnl(ps, marks) + Pnl(p, marks)
    ensures TotalMargin(ps + [p], marks) == TotalMargin(ps, marks) + Margin(p, marks)
    ensures Left(ps + [p], marks, shortfall) == Left(ps, marks, shortfall)
              - Times(Volume(p, marks, Left(ps, marks, shortfall)), UnitMargin(p, marks))
  {
    hide Times, Pnl, Margin, UnitMargin, Volume;
    assert (ps + [p])[..|ps|] == ps;
  }

  /** One position of the execution, by what was planned for it. */
  lemma PlayOne(id: string, x: Execution, p: Position, marks: Marks, v: real)
    requires v >= 0.0
    requires if v > 0.0 then x.unspent != [] && x.unspent[0] == EventOf(id, p, marks, v) && p.size != 0.0
             else x.unspent == [] || p.size == 0.0 || x.unspent[0].symbol != p.symbol
    ensures
      var q, y := Reduced(p, v), ExecuteOne(x, p);
      && y.positions == x.positions + [q]
      && y.cash == x.cash + Times(Mark(p, marks) - p.entry, p.size - q.size)
      && y.relief == x.relief + Times(v, UnitMargin(p, marks))
      && y.unspent == if v > 0.0 then x.unspent[1..] else x.unspent
  {
    hide Times;
    TimesLaws(0.0, 0.0, UnitMargin(p, marks));
    TimesLaws(0.0, Mark(p, marks) - p.entry, Mark(p, marks) - p.entry);
  }

  lemma {:induction false} Plays(id: string, ps: seq<Position>, marks: Marks, shortfall: real, k: nat)
    requires ValidPositions(ps) && k <= |ps|
    ensures Played(id, ps, marks, shortfall, k)
  {
    if k == 0 {
      assert ps[..0] == [];
    } else {
      Plays(id, ps, marks, shortfall, k - 1);
      PlayedStep(id, ps, marks, shortfall, k - 1);
    }
  }

  /** Executing the emitted events uses up every one of them on the position it was made for,
      keeps equity, lowers the margin by what they relieve, and relieves exactly the shortfall
      or, when that is less, all the margin that can be relieved. */
  lemma ExecutionMoves(id: string, ps: seq<Position>, marks: Marks, shortfall: real)
    requires ValidPositions(ps) && shortfall >= 0.0
    ensures
      var x := Execute(ps, Events(id, ps, marks, shortfall));
      && x.unspent == []
      && (forall i :: 0 <= i < |ps| ==> x.positions[i] == Reduced(ps[i], VolumeOf(ps, marks, shortfall, i)))
      && TotalPnl(x.positions, marks) + x.cash == TotalPnl(ps, marks)
      && TotalMargin(x.positions, marks) == TotalMargin(ps, marks) - x.relief
      && x.relief == shortfall - Left(ps, marks, shortfall) == Min(shortfall, CoverableMargin(ps, marks))
  {
    hide Events, Execute, TotalPnl, TotalMargin, Left, CoverableMargin, VolumeOf, Reduced;
    assert ps[..|ps|] == ps;
    Plays(id, ps, marks, shortfall, |ps|);
    LeftIsExact(ps, marks, shortfall);
  }

  predicate Solvent(a: Account, marks: Marks) {
    Equity(a, marks) >= TotalMargin(a.positions, marks)
  }

  /** With positive mark prices all margin can be relieved. */
  lemma {:induction false} AllCoverable(ps: seq<Position>, marks: Marks)
    requires ValidPositions(ps) && AllPriced(ps, marks)
    ensures CoverableMargin(ps, marks) == TotalMargin(ps, marks)
    decreases |ps|
  {
    hide Times;
    if ps != [] {
      var n := |ps| - 1;
      AllCoverable(ps[..n], marks);
      TimesLaws(0.0, 0.0, UnitMargin(ps[n], marks));
      if ps[n].size != 0.0 {
        TimesSign(Mark(ps[n], marks), ps[n].rate);
      }
    }
  }

  predicate AllPriced(ps: seq<Position>, marks: Marks) {
    forall i :: 0 <= i < |ps| && ps[i].size != 0.0 ==> Mark(ps[i], marks) > 0.0
  }

  /** Executing the events uses them up, keeps the equity and lowers the margin by the shortfall
      or by all that can be relieved; it leaves the account solvent exactly when the shortfall
      could be covered, and with positive mark prices exactly when its equity is not negative. */
  predicate Restores(a: Account, marks: Marks, shortfall: real, events: seq<Event>) {
    var b, coverable := Executed(a, events), CoverableMargin(a.positions, marks);
    && Execute(a.positions, events).unspent == []
    && Equity(b, marks) == Equity(a, marks)
    && TotalMargin(b.positions, marks) == TotalMargin(a.positions, marks) - Min(shortfall, coverable)
    && (Solvent(b, marks) <==> shortfall <= coverable)
    && (AllPriced(a.positions, marks) ==> (Solvent(b, marks) <==> Equity(a, marks) >= 0.0))
  }

  lemma LiquidationRestores(a: Account, marks: Marks)
    requires ValidPositions(a.positions) && !Solvent(a, marks)
    ensures
      var shortfall := TotalMargin(a.positions, marks) - Equity(a, marks);
      Restores(a, marks, shortfall, Events(a.id, a.positions, marks, shortfall))
  {
    hide Events, Execute, TotalPnl, TotalMargin, Left, CoverableMargin, VolumeOf, Reduced, Mark;
    var ps := a.positions;
    ExecutionMoves(a.id, ps, marks, TotalMargin(ps, marks) - Equity(a, marks));
    if AllPriced(ps, marks) {
      AllCoverable(ps, marks);
    }
  }

  /** e closes part or all of position i, on the opposite side. */
  predicate ClosesPosition(id: string, ps: seq<Position>, marks: Marks, shortfall: real, i: nat, e: Event)
    requires i < |ps|
  {
    e == EventOf(id, ps[i], marks, VolumeOf(ps, marks, shortfall, i)) && 0.0 < e.volume <= Abs(ps[i].size)
  }

  /** Every event closes at most the size of its position. */
  lemma {:induction false} EventsWithinPositions(id: string, ps: seq<Position>, marks: Marks, shortfall: real, e: Event)
    requires e in Events(id, ps, marks, shortfall)
    ensures exists i :: 0 <= i < |ps| && ClosesPosition(id, ps, marks, shortfall, i, e)
    decreases |ps|
  {
    hide Times;
    var n := |ps| - 1;
    if e in Events(id, ps[..n], marks, shortfall) {
      EventsWithinPositions(id, ps[..n], marks, shortfall, e);
      var i :| 0 <= i < n && ClosesPosition(id, ps[..n], marks, shortfall, i, e);
      assert ps[..n][..i] == ps[..i];
      assert ClosesPosition(id, ps, marks, shortfall, i, e);
    } else {
      VolumeBounds(ps[n], marks, Left(ps[..n], marks, shortfall));
      assert ClosesPosition(id, ps, marks, shortfall, n, e);
    }
  }

  datatype Evaluation = Evaluation(isSolvent: bool, shortfall: real, events: seq<Event>)

  /** evaluate_account; None for the KeyError of a missing mark price. */
  method EvaluateAccount(a: Account, marks: Marks) returns (r: Option<Evaluation>)
    requires ValidPositions(a.positions)
    ensures r.Some? == Priced(a.positions, marks)
    ensures r.Some? ==> r.value.isSolvent == Solvent(a, marks)
    ensures r.Some? && r.value.isSolvent ==> r.value.shortfall == 0.0 && r.value.events == []
    ensures r.Some? && !r.value.isSolvent ==>
      && r.value.shortfall == TotalMargin(a.positions, marks) - Equity(a, marks)
      && r.value.events == Events(a.id, a.positions, marks, r.value.shortfall)
      && Restores(a, marks, r.value.shortfall, r.value.events)
  {
    hide Events, Restores, TotalPnl, TotalMargin;
    var margin := EvaluateSolvency(a, marks);
    if margin.None? {
      return None;
    }
    if margin.value.isSolvent {
      return Some(Evaluation(true, 0.0, []));
    }
    var events := GenerateEvents(a, marks, margin.value.shortfall);
    LiquidationRestores(a, marks);
    r := Some(Evaluation(false, margin.value.shortfall, events));
  }
}
