/** What src/engine/scope.py and src/engine/pipeline.py compute, on values; and the theorem
    that unconfirmed and failing ticks leave no trace in var and standard variables. */
module ScopeSpec {
  import opened Options

  /** Immutable script values. */
  datatype Value = Na | Num(x: real) | Str(s: string) | Flag(b: bool)

  datatype Modifier = Standard | Var | Varip

  datatype Decl = Decl(name: string, modifier: Modifier, initial: Value, initializer: Option<Value>)

  /** value, bar_start_value and committed_value of one variable. */
  datatype Cell = Cell(value: Value, barStart: Value, committed: Value)

  datatype Bar = Bar(index: int, open: real, high: real, low: real, close: real, volume: real)

  datatype Tick = Tick(price: real, volume: real, confirmed: bool)

  /** A script run: the values it leaves in the variables, and whether it raised. */
  datatype Effect = Effect(values: seq<Value>, raised: bool)

  type Script = (seq<Value>, Bar, Option<Tick>) -> Effect

  /** started is the scope's _has_started; bar and closed are the pipeline's own. */
  datatype State = State(cells: seq<Cell>, started: bool, bar: Option<int>, closed: bool)

  function Declared(decls: seq<Decl>): State {
    State(seq(|decls|, i requires 0 <= i < |decls| =>
      Cell(decls[i].initial, decls[i].initial, decls[i].initial)), false, None, false)
  }

  // ---- lifecycle of one variable ----

  function StartBar(d: Decl, c: Cell, first: bool): Cell {
    match d.modifier
    case Standard =>
      var v := if d.initializer.Some? then d.initializer.value else d.initial;
      c.(value := v, barStart := v)
    case Var =>
      if first && d.initializer.Some? then Cell(d.initializer.value, d.initializer.value, d.initializer.value)
      else c.(value := c.committed, barStart := c.committed)
    case Varip =>
      if first && d.initializer.Some? then Cell(d.initializer.value, d.initializer.value, d.initializer.value)
      else c.(barStart := c.value)
  }

  function EndTick(d: Decl, c: Cell, confirmed: bool): Cell {
    if confirmed then c.(barStart := c.value)
    else if d.modifier.Varip? then c
    else c.(value := c.barStart)
  }

  function CloseBar(c: Cell): Cell {
    c.(committed := c.value)
  }

  // ---- the same over all variables ----

  function StartBars(decls: seq<Decl>, cs: seq<Cell>, first: bool): (r: seq<Cell>)
    requires |cs| == |decls|
    ensures |r| == |cs|
  {
    seq(|cs|, i requires 0 <= i < |cs| => StartBar(decls[i], cs[i], first))
  }

  function EndTicks(decls: seq<Decl>, cs: seq<Cell>, confirmed: bool): (r: seq<Cell>)
    requires |cs| == |decls|
    ensures |r| == |cs|
  {
    seq(|cs|, i requires 0 <= i < |cs| => EndTick(decls[i], cs[i], confirmed))
  }

  function CloseBars(cs: seq<Cell>): (r: seq<Cell>)
    ensures |r| == |cs|
  {
    seq(|cs|, i requires 0 <= i < |cs| => CloseBar(cs[i]))
  }

  function Values(cs: seq<Cell>): (r: seq<Value>)
    ensures |r| == |cs|
  {
    seq(|cs|, i requires 0 <= i < |cs| => cs[i].value)
  }

  function Write(cs: seq<Cell>, vs: seq<Value>): (r: seq<Cell>)
    ensures |r| == |cs|
    ensures |vs| == |cs| ==> Values(r) == vs
    ensures forall i :: 0 <= i < |cs| ==> r[i].barStart == cs[i].barStart && r[i].committed == cs[i].committed
  {
    if |vs| == |cs| then seq(|cs|, i requires 0 <= i < |cs| => cs[i].(value := vs[i])) else cs
  }

  // ---- process_tick ----

  predicate Confirmed(tick: Option<Tick>) {
    tick.None? || tick.value.confirmed
  }

  /** The state in which the script sees a tick: an old bar closed, a new bar started. */
  function Opened(decls: seq<Decl>, s: State, bar: Bar): (r: State)
    requires |s.cells| == |decls|
    ensures |r.cells| == |decls|
  {
    var closing := s.bar.Some? && s.bar.value != bar.index && !s.closed;
    var s1 := if closing then s.(cells := CloseBars(s.cells), closed := true) else s;
    if s1.bar != Some(bar.index) || s1.closed then
      State(StartBars(decls, s1.cells, !s1.started), true, Some(bar.index), false)
    else s1
  }

  function Sees(decls: seq<Decl>, script: Script, s: State, bar: Bar, tick: Option<Tick>): Effect
    requires |s.cells| == |decls|
  {
    script(Values(Opened(decls, s, bar).cells), bar, tick)
  }

  /** One tick; a script that raises leaves the state as it was. */
  function Step(decls: seq<Decl>, script: Script, s: State, bar: Bar, tick: Option<Tick>): (r: State)
    requires |s.cells| == |decls|
    ensures |r.cells| == |decls|
  {
    var o := Opened(decls, s, bar);
    var e := Sees(decls, script, s, bar, tick);
    if e.raised then s
    else
      var cs := EndTicks(decls, Write(o.cells, e.values), Confirmed(tick));
      if Confirmed(tick) then o.(cells := CloseBars(cs), closed := true) else o.(cells := cs)
  }

  type Feed = seq<(Bar, Option<Tick>)>

  function RunFrom(decls: seq<Decl>, script: Script, s: State, feed: Feed): (r: State)
    requires |s.cells| == |decls|
    ensures |r.cells| == |decls|
  {
    if feed == [] then s
    else
      var last := feed[|feed|-1];
      Step(decls, script, RunFrom(decls, script, s, feed[..|feed|-1]), last.0, last.1)
  }

  function Run(decls: seq<Decl>, script: Script, feed: Feed): (r: State)
    ensures |r.cells| == |decls|
  {
    RunFrom(decls, script, Declared(decls), feed)
  }

  predicate RaisesAt(decls: seq<Decl>, script: Script, s: State, feed: Feed, n: nat)
    requires |s.cells| == |decls| && n < |feed|
  {
    Sees(decls, script, RunFrom(decls, script, s, feed[..n]), feed[n].0, feed[n].1).raised
  }

  /** How many ticks pass before the first on which the script raises. */
  function Passed(decls: seq<Decl>, script: Script, s: State, feed: Feed): (n: nat)
    requires |s.cells| == |decls|
    ensures n <= |feed|
  {
    if feed == [] then 0
    else
      var n := Passed(decls, script, s, feed[..|feed|-1]);
      if n < |feed| - 1 || RaisesAt(decls, script, s, feed, |feed| - 1) then n else n + 1
  }

  /** The tick that stops the feed is the first that raises. */
  lemma {:induction false} PassedIsFirst(decls: seq<Decl>, script: Script, s: State, feed: Feed)
    requires |s.cells| == |decls|
    ensures
      var n := Passed(decls, script, s, feed);
      && (forall i :: 0 <= i < n ==> !RaisesAt(decls, script, s, feed, i))
      && (n < |feed| ==> RaisesAt(decls, script, s, feed, n))
  {
    if feed != [] {
      var before := feed[..|feed|-1];
      PassedIsFirst(decls, script, s, before);
      forall i | 0 <= i < |before|
        ensures RaisesAt(decls, script, s, before, i) == RaisesAt(decls, script, s, feed, i)
      {
        assert before[..i] == feed[..i];
      }
    }
  }

  /** The first m ticks decide, if one of them raises. */
  lemma {:induction false} PassedStops(decls: seq<Decl>, script: Script, s: State, feed: Feed, m: nat)
    requires |s.cells| == |decls| && m <= |feed|
    requires Passed(decls, script, s, feed[..m]) < m
    ensures Passed(decls, script, s, feed) == Passed(decls, script, s, feed[..m])
  {
    if m == |feed| {
      assert feed[..m] == feed;
    } else {
      assert feed[..|feed|-1][..m] == feed[..m];
      PassedStops(decls, script, s, feed[..|feed|-1], m);
    }
  }

  /** The tick counts: it is confirmed and the script did not raise on it. */
  predicate Counts(decls: seq<Decl>, script: Script, s: State, bar: Bar, tick: Option<Tick>)
    requires |s.cells| == |decls|
  {
    Confirmed(tick) && !Sees(decls, script, s, bar, tick).raised
  }

  /** The feed with every other tick deleted. */
  function Kept(decls: seq<Decl>, script: Script, feed: Feed): Feed {
    if feed == [] then []
    else
      var before, last := feed[..|feed|-1], feed[|feed|-1];
      Kept(decls, script, before)
      + if Counts(decls, script, Run(decls, script, before), last.0, last.1) then [last] else []
  }

  // ---- scripts that do not leak varip ----

  predicate Alike(decls: seq<Decl>, a: seq<Value>, b: seq<Value>) {
    |a| == |b| == |decls| && forall i :: 0 <= i < |decls| && !decls[i].modifier.Varip? ==> a[i] == b[i]
  }

  type Raising = (seq<Value>, Bar, Option<Tick>) -> bool

  /** On confirmed ticks without a raise, what the script writes to var and standard variables
      does not depend on varip variables. */
  ghost predicate WritesInsulated(decls: seq<Decl>, script: Script) {
    forall a, b, bar, tick :: Alike(decls, a, b) && Confirmed(tick) ==>
      var x, y := script(a, bar, tick), script(b, bar, tick);
      !x.raised && !y.raised ==> Alike(decls, x.values, y.values)
  }

  /** On confirmed ticks, raising does not depend on varip variables. */
  ghost predicate RaisingInsulated(decls: seq<Decl>, raises: Raising) {
    forall a, b, bar, tick :: Alike(decls, a, b) && Confirmed(tick) ==> raises(a, bar, tick) == raises(b, bar, tick)
  }

  /** On confirmed ticks, the script raises exactly where the predicate says. */
  ghost predicate RaisesLike(script: Script, raises: Raising) {
    forall vs, bar, tick :: Confirmed(tick) ==> script(vs, bar, tick).raised == raises(vs, bar, tick)
  }

  /** Nothing is asked of unconfirmed ticks: what a script writes there, and whether it raises
      there, may depend on anything. */
  ghost predicate Insulated(decls: seq<Decl>, script: Script) {
    && WritesInsulated(decls, script)
    && RaisingInsulated(decls, (vs, bar, tick) => script(vs, bar, tick).raised)
  }

  /** What a var variable will be worth at the next bar start. */
  function Carried(d: Decl, c: Cell, started: bool): Value {
    if !started && d.initializer.Some? then d.initializer.value else c.committed
  }

  /** Between ticks of an open bar, var and standard variables are back at the bar's start. */
  predicate Settled(decls: seq<Decl>, s: State) {
    && |s.cells| == |decls|
    && (s.bar.Some? <==> s.started)
    && (s.bar.Some? && !s.closed ==>
        forall i :: 0 <= i < |decls| && !decls[i].modifier.Varip? ==>
          var c := s.cells[i];
          c.value == c.barStart == (if decls[i].modifier.Var? then c.committed else StartBar(decls[i], c, false).value))
  }

  /** The full run s and the run t without the deleted ticks agree on what is carried over. */
  predicate Tracks(decls: seq<Decl>, s: State, t: State) {
    && Settled(decls, s) && Settled(decls, t) && (t.started ==> t.closed)
    && forall i :: 0 <= i < |decls| && decls[i].modifier.Var? ==>
         Carried(decls[i], s.cells[i], s.started) == Carried(decls[i], t.cells[i], t.started)
  }

  predicate SameValues(decls: seq<Decl>, s: State, t: State) {
    |s.cells| == |t.cells| == |decls| && Alike(decls, Values(s.cells), Values(t.cells))
  }

  /** Opening the bar shows the script the same var and standard values in both runs. */
  lemma OpenedAlike(decls: seq<Decl>, s: State, t: State, bar: Bar)
    requires Tracks(decls, s, t)
    ensures Alike(decls, Values(Opened(decls, s, bar).cells), Values(Opened(decls, t, bar).cells))
    ensures forall i :: 0 <= i < |decls| && decls[i].modifier.Var? ==>
      var c := Opened(decls, s, bar).cells[i];
      c.value == c.barStart == c.committed == Carried(decls[i], s.cells[i], s.started)
    ensures forall i :: 0 <= i < |decls| && decls[i].modifier.Standard? ==>
      var c := Opened(decls, s, bar).cells[i];
      c.value == c.barStart == StartBar(decls[i], c, false).value
  {
  }

  /** A tick that does not count changes nothing that is carried over. */
  lemma SkippedTick(decls: seq<Decl>, script: Script, s: State, t: State, bar: Bar, tick: Option<Tick>)
    requires Tracks(decls, s, t) && !Counts(decls, script, s, bar, tick)
    ensures Tracks(decls, Step(decls, script, s, bar, tick), t)
  {
    OpenedAlike(decls, s, t, bar);
  }

  /** A tick that counts does not raise in the other run either, and ends both runs with the
      same var and standard values. */
  lemma KeptTick(decls: seq<Decl>, script: Script, s: State, t: State, bar: Bar, tick: Option<Tick>)
    requires Tracks(decls, s, t) && Insulated(decls, script) && Counts(decls, script, s, bar, tick)
    ensures Counts(decls, script, t, bar, tick)
    ensures
      var s', t' := Step(decls, script, s, bar, tick), Step(decls, script, t, bar, tick);
      Tracks(decls, s', t') && SameValues(decls, s', t')
  {
    OpenedAlike(decls, s, t, bar);
    var a, b := Values(Opened(decls, s, bar).cells), Values(Opened(decls, t, bar).cells);
    var raises: Raising := (vs, bar, tick) => script(vs, bar, tick).raised;
    assert raises(a, bar, tick) == raises(b, bar, tick);
    assert Alike(decls, script(a, bar, tick).values, script(b, bar, tick).values);
  }

  lemma {:induction false} DeletedTicks(decls: seq<Decl>, script: Script, feed: Feed)
    requires Insulated(decls, script)
    ensures Tracks(decls, Run(decls, script, feed), Run(decls, script, Kept(decls, script, feed)))
    decreases |feed|
  {
    if feed != [] {
      var before, last := feed[..|feed|-1], feed[|feed|-1];
      DeletedTicks(decls, script, before);
      var s, kept := Run(decls, script, before), Kept(decls, script, before);
      var t := Run(decls, script, kept);
      if Counts(decls, script, s, last.0, last.1) {
        KeptTick(decls, script, s, t, last.0, last.1);
        assert (kept + [last])[..|kept|] == kept;
      } else {
        SkippedTick(decls, script, s, t, last.0, last.1);
        assert kept + [] == kept;
      }
    }
  }

  /** The feed ends in a tick that counts. */
  predicate EndsCounting(decls: seq<Decl>, script: Script, feed: Feed) {
    && feed != []
    && Counts(decls, script, Run(decls, script, feed[..|feed|-1]), feed[|feed|-1].0, feed[|feed|-1].1)
  }

  /** After every tick that counts, deleting all the others before it changes no var and no
      standard value. */
  lemma UnconfirmedLeaveNoTrace(decls: seq<Decl>, script: Script, feed: Feed)
    requires Insulated(decls, script) && EndsCounting(decls, script, feed)
    ensures SameValues(decls, Run(decls, script, feed), Run(decls, script, Kept(decls, script, feed)))
  {
    var before, last := feed[..|feed|-1], feed[|feed|-1];
    DeletedTicks(decls, script, before);
    var kept := Kept(decls, script, before);
    KeptTick(decls, script, Run(decls, script, before), Run(decls, script, kept), last.0, last.1);
    assert (kept + [last])[..|kept|] == kept;
  }

  // ---- exactly which raising keeps the isolation ----

  ghost predicate LeavesNoTrace(decls: seq<Decl>, script: Script) {
    forall feed: Feed :: EndsCounting(decls, script, feed) ==>
      SameValues(decls, Run(decls, script, feed), Run(decls, script, Kept(decls, script, feed)))
  }

  predicate SameModifiers(ds: seq<Decl>, decls: seq<Decl>) {
    |ds| == |decls| && forall i :: 0 <= i < |decls| ==> ds[i].modifier == decls[i].modifier
  }

  function WithInitials(decls: seq<Decl>, vs: seq<Value>): (r: seq<Decl>)
    requires |vs| == |decls|
    ensures SameModifiers(r, decls)
  {
    seq(|decls|, i requires 0 <= i < |decls| => decls[i].(initial := vs[i], initializer := None))
  }

  function Another(v: Value): (r: Value)
    ensures r != v
  {
    if v.Na? then Flag(true) else Na
  }

  /** Writes b on unconfirmed ticks and c on confirmed ones, and raises as it is told. */
  function Witness(b: seq<Value>, c: seq<Value>, raises: Raising): Script {
    (vs, bar, tick) => if Confirmed(tick) then Effect(c, raises(vs, bar, tick)) else Effect(b, false)
  }

  function WitnessFeed(bar: Bar, tick: Option<Tick>): Feed {
    [(bar, Some(Tick(0.0, 0.0, false))), (bar, tick)]
  }

  /** After one unconfirmed tick the witness has moved the varip variables, and only those. */
  lemma WitnessPrimed(decls: seq<Decl>, raises: Raising, a: seq<Value>, b: seq<Value>, c: seq<Value>, bar: Bar)
    requires Alike(decls, a, b)
    ensures
      var ds := WithInitials(decls, a);
      var s1 := Step(ds, Witness(b, c, raises), Declared(ds), bar, Some(Tick(0.0, 0.0, false)));
      Opened(ds, s1, bar) == s1 && Values(s1.cells) == b
  {
    hide StartBars, EndTicks, Write, Values, Opened, StartBar;
    var ds := WithInitials(decls, a);
    var s1 := Step(ds, Witness(b, c, raises), Declared(ds), bar, Some(Tick(0.0, 0.0, false)));
    var o := FreshOpened(ds, bar);
    var w := Write(o.cells, b);
    WitnessEffect(b, c, raises, Values(o.cells), bar, Some(Tick(0.0, 0.0, false)));
    assert s1.cells == EndTicks(ds, w, false);
    forall i | 0 <= i < |b| ensures s1.cells[i].value == b[i] {
      ValuesAt(w, i);
      EndTicksAt(ds, w, false, i);
      assert ds[i].modifier == decls[i].modifier && ds[i].initial == a[i];
    }
    AllValues(s1.cells, b);
    AlreadyOpen(ds, s1, bar);
  }

  lemma WitnessEffect(b: seq<Value>, c: seq<Value>, raises: Raising, vs: seq<Value>, bar: Bar, tick: Option<Tick>)
    ensures Witness(b, c, raises)(vs, bar, tick)
         == if Confirmed(tick) then Effect(c, raises(vs, bar, tick)) else Effect(b, false)
  {
  }

  lemma FreshOpened(ds: seq<Decl>, bar: Bar) returns (o: State)
    requires forall i :: 0 <= i < |ds| ==> ds[i].initializer.None?
    ensures o == Opened(ds, Declared(ds), bar) && o.bar == Some(bar.index) && !o.closed
    ensures forall i :: 0 <= i < |ds| ==> o.cells[i] == Cell(ds[i].initial, ds[i].initial, ds[i].initial)
  {
    o := Opened(ds, Declared(ds), bar);
    assert o.cells == StartBars(ds, Declared(ds).cells, true);
  }

  lemma AlreadyOpen(ds: seq<Decl>, s: State, bar: Bar)
    requires |s.cells| == |ds| && s.bar == Some(bar.index) && !s.closed
    ensures Opened(ds, s, bar) == s
  {
  }

  lemma EndTicksAt(ds: seq<Decl>, cs: seq<Cell>, confirmed: bool, i: nat)
    requires i < |cs| == |ds|
    ensures EndTicks(ds, cs, confirmed)[i] == EndTick(ds[i], cs[i], confirmed)
  {
  }

  lemma ValuesAt(cs: seq<Cell>, i: nat)
    requires i < |cs|
    ensures Values(cs)[i] == cs[i].value
  {
  }

  lemma AllValues(cs: seq<Cell>, vs: seq<Value>)
    requires |cs| == |vs| && forall i :: 0 <= i < |vs| ==> cs[i].value == vs[i]
    ensures Values(cs) == vs
  {
  }

  /** From initial values on which it raises, one unconfirmed tick that moves the varip
      variables to values on which it does not is enough to show. */
  lemma WitnessLeaks(decls: seq<Decl>, raises: Raising, a: seq<Value>, b: seq<Value>, k: nat, bar: Bar,
                     tick: Option<Tick>)
    requires Alike(decls, a, b) && Confirmed(tick) && raises(a, bar, tick) && !raises(b, bar, tick)
    requires k < |decls| && !decls[k].modifier.Varip?
    ensures !LeavesNoTrace(WithInitials(decls, a), Witness(b, a[k := Another(a[k])], raises))
  {
    hide StartBars, EndTicks, Write, Values, Opened, StartBar, Declared, Step;
    var ds, c := WithInitials(decls, a), a[k := Another(a[k])];
    var script, feed := Witness(b, c, raises), WitnessFeed(bar, tick);
    var s0 := Declared(ds);
    assert feed[..1][..0] == [] && feed[..|feed|-1] == feed[..1];
    assert Run(ds, script, feed[..0]) == s0;
    var s1 := Step(ds, script, s0, bar, feed[0].1);
    assert Run(ds, script, feed[..1]) == s1;
    WitnessPrimed(decls, raises, a, b, c, bar);
    assert EndsCounting(ds, script, feed);
    assert Kept(ds, script, feed[..1]) == [];
    assert Kept(ds, script, feed) == [feed[1]];
    assert Run(ds, script, feed) == Step(ds, script, s1, bar, tick);
    KeptWrites(ds, script, s1, bar, tick);
    var o := FreshOpened(ds, bar);
    AllValues(o.cells, a);
    RolledBackStep(ds, script, s0, bar, tick);
    assert [feed[1]][..0] == [];
    assert Run(ds, script, [feed[1]]) == s0;
    InitialValue(ds, k);
    assert !SameValues(ds, Run(ds, script, feed), s0);
  }

  /** A tick that counts leaves what the script wrote. */
  lemma KeptWrites(decls: seq<Decl>, script: Script, s: State, bar: Bar, tick: Option<Tick>)
    requires |s.cells| == |decls| && Counts(decls, script, s, bar, tick)
    requires |Sees(decls, script, s, bar, tick).values| == |decls|
    ensures Values(Step(decls, script, s, bar, tick).cells) == Sees(decls, script, s, bar, tick).values
  {
    hide Opened, Sees;
    var o, vs := Opened(decls, s, bar), Sees(decls, script, s, bar, tick).values;
    var w := Write(o.cells, vs);
    forall i | 0 <= i < |vs| ensures Step(decls, script, s, bar, tick).cells[i].value == vs[i] {
      ValuesAt(w, i);
      EndTicksAt(decls, w, true, i);
    }
    AllValues(Step(decls, script, s, bar, tick).cells, vs);
  }

  lemma RolledBackStep(decls: seq<Decl>, script: Script, s: State, bar: Bar, tick: Option<Tick>)
    requires |s.cells| == |decls| && Sees(decls, script, s, bar, tick).raised
    ensures Step(decls, script, s, bar, tick) == s
  {
  }

  lemma InitialValue(ds: seq<Decl>, k: nat)
    requires k < |ds|
    ensures Values(Declared(ds).cells)[k] == ds[k].initial
  {
  }

  /** The scripts that raise like the predicate and whose lasting writes are insulated all keep
      the isolation, whatever the initial values, exactly if the predicate reads no varip variable
      on confirmed ticks. */
  lemma IsolationIffRaisingInsulated(decls: seq<Decl>, raises: Raising)
    requires exists i :: 0 <= i < |decls| && !decls[i].modifier.Varip?
    ensures RaisingInsulated(decls, raises) <==>
      forall ds, script {:trigger LeavesNoTrace(ds, script)} ::
        SameModifiers(ds, decls) && WritesInsulated(ds, script) && RaisesLike(script, raises) ==>
          LeavesNoTrace(ds, script)
  {
    if RaisingInsulated(decls, raises) {
      forall ds, script | SameModifiers(ds, decls) && WritesInsulated(ds, script) && RaisesLike(script, raises)
        ensures LeavesNoTrace(ds, script)
      {
        forall a, b | Alike(ds, a, b) ensures Alike(decls, a, b) {}
        forall feed: Feed | EndsCounting(ds, script, feed)
          ensures SameValues(ds, Run(ds, script, feed), Run(ds, script, Kept(ds, script, feed)))
        {
          UnconfirmedLeaveNoTrace(ds, script, feed);
        }
      }
    } else {
      var a, b, bar, tick :| Alike(decls, a, b) && Confirmed(tick) && raises(a, bar, tick) != raises(b, bar, tick);
      var k :| 0 <= k < |decls| && !decls[k].modifier.Varip?;
      if raises(a, bar, tick) {
        Exhibit(decls, raises, a, b, k, bar, tick);
      } else {
        Exhibit(decls, raises, b, a, k, bar, tick);
      }
    }
  }

  lemma Exhibit(decls: seq<Decl>, raises: Raising, a: seq<Value>, b: seq<Value>, k: nat, bar: Bar, tick: Option<Tick>)
    requires Alike(decls, a, b) && Confirmed(tick) && raises(a, bar, tick) && !raises(b, bar, tick)
    requires k < |decls| && !decls[k].modifier.Varip?
    ensures exists ds, script {:trigger LeavesNoTrace(ds, script)} ::
      && SameModifiers(ds, decls) && WritesInsulated(ds, script) && RaisesLike(script, raises)
      && !LeavesNoTrace(ds, script)
  {
    WitnessLeaks(decls, raises, a, b, k, bar, tick);
    var ds, script := WithInitials(decls, a), Witness(b, a[k := Another(a[k])], raises);
    assert SameModifiers(ds, decls) && WritesInsulated(ds, script) && RaisesLike(script, raises);
  }

  // ---- the smallest failing script and feed ----

  /** A script that raises on a confirmed tick unless a varip counter has moved. */
  function LeakyScript(vs: seq<Value>, bar: Bar, tick: Option<Tick>): Effect {
    Effect([Num(1.0), Num(1.0)], Confirmed(tick) && vs != [] && vs[0] == Num(0.0))
  }

  const LEAKY_DECLS := [Decl("n", Varip, Num(0.0), None), Decl("x", Var, Num(0.0), None)]
  const LEAKY_BAR := Bar(0, 1.0, 1.0, 1.0, 1.0, 0.0)
  const LEAKY_FEED := [(LEAKY_BAR, Some(Tick(1.0, 0.0, false))), (LEAKY_BAR, Some(Tick(1.0, 0.0, true)))]

  /** Its writes read no varip variable, its raising does: deleting the unconfirmed tick
      makes the confirmed one fail and the var variable stays behind. */
  lemma LeakyRaise()
    ensures forall a, b, bar, tick :: LeakyScript(a, bar, tick).values == LeakyScript(b, bar, tick).values
    ensures
      var feed := LEAKY_FEED;
      && Counts(LEAKY_DECLS, LeakyScript, Run(LEAKY_DECLS, LeakyScript, feed[..1]), feed[1].0, feed[1].1)
      && !SameValues(LEAKY_DECLS, Run(LEAKY_DECLS, LeakyScript, feed),
                     Run(LEAKY_DECLS, LeakyScript, Kept(LEAKY_DECLS, LeakyScript, feed)))
  {
    var ds, feed := LEAKY_DECLS, LEAKY_FEED;
    var s0 := Declared(ds);
    assert feed[..1][..0] == [] && feed[..|feed|-1] == feed[..1];
    assert Run(ds, LeakyScript, feed[..0]) == s0;
    var s1 := Step(ds, LeakyScript, s0, feed[0].0, feed[0].1);
    assert Run(ds, LeakyScript, feed[..1]) == s1;
    assert s1.cells[0].value == Num(1.0);
    assert Kept(ds, LeakyScript, feed[..1]) == [];
    var s2 := Step(ds, LeakyScript, s1, feed[1].0, feed[1].1);
    assert Run(ds, LeakyScript, feed) == s2 && Values(s2.cells)[1] == Num(1.0);
    assert Kept(ds, LeakyScript, feed) == [feed[1]];
    assert [feed[1]][..0] == [];
    assert Run(ds, LeakyScript, [feed[1]]) == s0 && Values(s0.cells)[1] == Num(0.0);
  }

}
