/** What a script of the bar and tick pipeline finds in its variables, said of the ticks so far. */
module ScopeMeaning {
  import opened Options
  import opened ScopeSpec

  function InitialOf(d: Decl): Value {
    if d.initializer.Some? then d.initializer.value else d.initial
  }

  /** The value that a variable was last given for good: a varip one by any tick, a var one by a
      confirmed tick, and a standard one never; ticks that raise give none. */
  function Latest(decls: seq<Decl>, script: Script, feed: Feed, i: nat): Value
    requires i < |decls|
    decreases |feed|
  {
    if feed == [] then InitialOf(decls[i])
    else
      var before, (bar, tick) := feed[..|feed|-1], feed[|feed|-1];
      var e := Sees(decls, script, Run(decls, script, before), bar, tick);
      if Lasts(decls, decls[i], e, tick) then e.values[i] else Latest(decls, script, before, i)
  }

  /** The effect of the tick stays with such a variable. */
  predicate Lasts(decls: seq<Decl>, d: Decl, e: Effect, tick: Option<Tick>) {
    && !e.raised && |e.values| == |decls|
    && match d.modifier
       case Varip => true
       case Var => tick.None? || tick.value.confirmed
       case Standard => false
  }

  /** The cell carries v over to the next bar, and inside an open bar already holds it. */
  predicate Carries(d: Decl, c: Cell, v: Value, s: State) {
    var open := s.bar.Some? && !s.closed;
    match d.modifier
    case Varip => if !s.started && d.initializer.Some? then v == d.initializer.value else c.value == v
    case Var =>
      && (if !s.started && d.initializer.Some? then v == d.initializer.value else c.committed == v)
      && (open ==> c.value == c.barStart == c.committed)
    case Standard => v == InitialOf(d) && (open ==> c.value == c.barStart == v)
  }

  predicate CarriesAll(decls: seq<Decl>, s: State, vs: seq<Value>) {
    && |s.cells| == |vs| == |decls| && (s.bar.Some? <==> s.started)
    && forall i :: 0 <= i < |decls| ==> Carries(decls[i], s.cells[i], vs[i], s)
  }

  /** In the bar that is opened next the cell shows what it has carried over. */
  predicate Shows(d: Decl, c: Cell, v: Value) {
    && c.value == v && (d.modifier.Var? ==> c.barStart == c.committed == v)
    && (d.modifier.Standard? ==> c.barStart == v == InitialOf(d))
  }

  lemma OpenedShows(decls: seq<Decl>, s: State, vs: seq<Value>, bar: Bar, i: nat)
    requires CarriesAll(decls, s, vs) && i < |decls|
    ensures
      var o := Opened(decls, s, bar);
      Shows(decls[i], o.cells[i], vs[i]) && o.started && o.bar.Some? && !o.closed
  {
    assert Carries(decls[i], s.cells[i], vs[i], s);
  }

  lemma StepCarries(decls: seq<Decl>, script: Script, s: State, vs: seq<Value>, bar: Bar, tick: Option<Tick>,
                    i: nat)
    requires CarriesAll(decls, s, vs) && i < |decls|
    ensures
      var e, t := Sees(decls, script, s, bar, tick), Step(decls, script, s, bar, tick);
      && Carries(decls[i], t.cells[i], if Lasts(decls, decls[i], e, tick) then e.values[i] else vs[i], t)
      && (t.bar.Some? <==> t.started)
  {
    hide Sees, Opened;
    var e, o := Sees(decls, script, s, bar, tick), Opened(decls, s, bar);
    OpenedShows(decls, s, vs, bar, i);
    if e.raised {
      assert Carries(decls[i], s.cells[i], vs[i], s);
    } else {
      WrittenAt(o.cells, e.values, i);
    }
  }

  lemma WrittenAt(cs: seq<Cell>, vs: seq<Value>, i: nat)
    requires i < |cs|
    ensures Write(cs, vs)[i] == if |vs| == |cs| then cs[i].(value := vs[i]) else cs[i]
  {
  }

  function AllLatest(decls: seq<Decl>, script: Script, feed: Feed): (r: seq<Value>)
    ensures |r| == |decls| && forall i :: 0 <= i < |decls| ==> r[i] == Latest(decls, script, feed, i)
  {
    seq(|decls|, i requires 0 <= i < |decls| => Latest(decls, script, feed, i))
  }

  lemma {:induction false} RunCarries(decls: seq<Decl>, script: Script, feed: Feed)
    ensures CarriesAll(decls, Run(decls, script, feed), AllLatest(decls, script, feed))
    decreases |feed|
  {
    if feed == [] {
      assert Run(decls, script, feed) == Declared(decls);
    } else {
      hide Carries, Step, Lasts;
      var before, last := feed[..|feed|-1], feed[|feed|-1];
      var s, vs := Run(decls, script, before), AllLatest(decls, script, before);
      RunCarries(decls, script, before);
      var t := Step(decls, script, s, last.0, last.1);
      assert Run(decls, script, feed) == t;
      StepStarted(decls, script, s, vs, last.0, last.1);
      forall i | 0 <= i < |decls|
        ensures Carries(decls[i], t.cells[i], Latest(decls, script, feed, i), t)
      {
        StepCarries(decls, script, s, vs, last.0, last.1, i);
      }
    }
  }

  lemma StepStarted(decls: seq<Decl>, script: Script, s: State, vs: seq<Value>, bar: Bar, tick: Option<Tick>)
    requires CarriesAll(decls, s, vs)
    ensures var t := Step(decls, script, s, bar, tick); t.bar.Some? <==> t.started
  {
    hide Carries;
  }

  /** At every tick the script finds in each variable the value it was last given for good: var
      variables survive confirmed ticks only, varip variables every tick, standard ones none. */
  lemma SeesLatest(decls: seq<Decl>, script: Script, feed: Feed, bar: Bar, tick: Option<Tick>)
    ensures Sees(decls, script, Run(decls, script, feed), bar, tick)
         == script(AllLatest(decls, script, feed), bar, tick)
  {
    hide Opened, Run, Latest;
    var s, vs := Run(decls, script, feed), AllLatest(decls, script, feed);
    RunCarries(decls, script, feed);
    var o := Opened(decls, s, bar);
    forall i | 0 <= i < |decls| ensures Values(o.cells)[i] == vs[i] {
      OpenedShows(decls, s, vs, bar, i);
    }
    assert Values(o.cells) == vs;
  }
}
