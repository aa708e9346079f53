/** src/engine/scope.py and src/engine/pipeline.py on objects: variables updated in place,
    rolled back when the script raises. */
module Pipelines {
  import opened Options
  import opened ScopeSpec
  import opened Sequences

  class Variable {
    const decl: Decl
    var value: Value
    var barStart: Value
    var committed: Value

    constructor (decl: Decl)
      ensures this.decl == decl && CellOf(this) == Cell(decl.initial, decl.initial, decl.initial)
    {
      this.decl := decl;
      value, barStart, committed := decl.initial, decl.initial, decl.initial;
    }
  }

  function CellOf(v: Variable): Cell
    reads v
  {
    Cell(v.value, v.barStart, v.committed)
  }

  function CellsOf(vs: seq<Variable>): (r: seq<Cell>)
    reads vs
    ensures |r| == |vs|
  {
    seq(|vs|, i requires 0 <= i < |vs| reads vs => CellOf(vs[i]))
  }

  function DeclsOf(vs: seq<Variable>): (r: seq<Decl>)
    ensures |r| == |vs|
  {
    seq(|vs|, i requires 0 <= i < |vs| => vs[i].decl)
  }

  class Scope {
    var variables: seq<Variable>
    var currentBar: Option<int>
    var started: bool
    var snapshotContext: (Option<int>, bool)

    ghost predicate Valid()
      reads this
    {
      NoDup(variables)
    }

    constructor ()
      ensures Valid() && variables == [] && !started && currentBar == None
    {
      variables, currentBar, started, snapshotContext := [], None, false, (None, false);
    }

    /** declare; false stands for the ValueError of a second declaration. */
    method Declare(decl: Decl) returns (ok: bool)
      requires Valid()
      modifies this`variables
      ensures Valid()
      ensures ok <==> forall v :: v in old(variables) ==> v.decl.name != decl.name
      ensures !ok ==> variables == old(variables)
      ensures ok ==> |variables| == |old(variables)| + 1 && variables[..|old(variables)|] == old(variables)
      ensures ok ==> variables[|old(variables)|].decl == decl && fresh(variables[|old(variables)|])
      ensures ok ==> CellOf(variables[|old(variables)|]) == Cell(decl.initial, decl.initial, decl.initial)
    {
      for i := 0 to |variables|
        invariant forall j :: 0 <= j < i ==> variables[j].decl.name != decl.name
        invariant variables == old(variables)
      {
        if variables[i].decl.name == decl.name {
          return false;
        }
      }
      var v := new Variable(decl);
      variables := variables + [v];
      ok := true;
    }

    method OnBarStart(barIndex: int)
      requires Valid()
      modifies this, variables
      ensures Valid() && variables == old(variables) && started && currentBar == Some(barIndex)
      ensures snapshotContext == old(snapshotContext)
      ensures CellsOf(variables) == StartBars(DeclsOf(variables), old(CellsOf(variables)), !old(started))
    {
      currentBar := Some(barIndex);
      var first := !started;
      started := true;
      for i := 0 to |variables|
        invariant variables == old(variables) && started && currentBar == Some(barIndex)
        invariant snapshotContext == old(snapshotContext)
        invariant forall j :: 0 <= j < i ==>
          CellOf(variables[j]) == StartBar(variables[j].decl, old(CellOf(variables[j])), first)
        invariant forall j :: i <= j < |variables| ==> CellOf(variables[j]) == old(CellOf(variables[j]))
      {
        var v := variables[i];
        match v.decl.modifier {
          case Standard =>
            v.value := if v.decl.initializer.Some? then v.decl.initializer.value else v.decl.initial;
            v.barStart := v.value;
          case Var =>
            if first && v.decl.initializer.Some? {
              v.value := v.decl.initializer.value;
              v.committed := v.value;
            } else {
              v.value := v.committed;
            }
            v.barStart := v.value;
          case Varip =>
            if first && v.decl.initializer.Some? {
              v.value := v.decl.initializer.value;
              v.committed := v.value;
            }
            v.barStart := v.value;
        }
      }
    }

    method OnTickEnd(confirmed: bool)
      requires Valid()
      modifies variables
      ensures CellsOf(variables) == EndTicks(DeclsOf(variables), old(CellsOf(variables)), confirmed)
      ensures forall j :: 0 <= j < |variables| ==> if confirmed
        then variables[j].barStart == variables[j].value == old(variables[j].value)
        else variables[j].value == if variables[j].decl.modifier == Varip then old(variables[j].value)
                                   else old(variables[j].barStart)
    {
      for i := 0 to |variables|
        invariant forall j :: 0 <= j < i ==>
          CellOf(variables[j]) == EndTick(variables[j].decl, old(CellOf(variables[j])), confirmed)
        invariant forall j :: i <= j < |variables| ==> CellOf(variables[j]) == old(CellOf(variables[j]))
      {
        var v := variables[i];
        if confirmed {
          v.barStart := v.value;
        } else if v.decl.modifier != Varip {
          v.value := v.barStart;
        }
      }
    }

    method OnBarClose()
      requires Valid()
      modifies variables
      ensures CellsOf(variables) == CloseBars(old(CellsOf(variables)))
    {
      for i := 0 to |variables|
        invariant forall j :: 0 <= j < i ==> CellOf(variables[j]) == CloseBar(old(CellOf(variables[j])))
        invariant forall j :: i <= j < |variables| ==> CellOf(variables[j]) == old(CellOf(variables[j]))
      {
        variables[i].committed := variables[i].value;
      }
    }

    method Snapshot() returns (state: seq<Cell>)
      requires Valid()
      modifies this`snapshotContext
      ensures state == CellsOf(variables) && snapshotContext == (currentBar, started)
    {
      snapshotContext := (currentBar, started);
      state := CellsOf(variables);
    }

    method RestoreSnapshot(state: seq<Cell>)
      requires Valid() && |state| == |variables|
      modifies this`currentBar, this`started, variables
      ensures CellsOf(variables) == state && (currentBar, started) == snapshotContext
    {
      currentBar, started := snapshotContext.0, snapshotContext.1;
      for i := 0 to |variables|
        invariant variables == old(variables) && (currentBar, started) == snapshotContext
        invariant forall j :: 0 <= j < i ==> CellOf(variables[j]) == state[j]
      {
        var v := variables[i];
        v.value, v.barStart, v.committed := state[i].value, state[i].barStart, state[i].committed;
      }
    }

    /** The scope's values as the script leaves them. */
    method SetValues(vs: seq<Value>)
      requires Valid()
      modifies variables
      ensures CellsOf(variables) == Write(old(CellsOf(variables)), vs)
    {
      if |vs| != |variables| {
        return;
      }
      for i := 0 to |variables|
        invariant forall j :: 0 <= j < i ==> CellOf(variables[j]) == old(CellOf(variables[j])).(value := vs[j])
        invariant forall j :: i <= j < |variables| ==> CellOf(variables[j]) == old(CellOf(variables[j]))
      {
        variables[i].value := vs[i];
      }
    }
  }

  /** The ticks ran, one was rolled back after an exception of the script, or there was no
      script or no bar to run. */
  datatype TickOutcome = Ran | RolledBack | NoScript | NoBars

  class ExecutionPipeline {
    const scope: Scope
    var script: Option<Script>
    var bar: Option<int>
    var closed: bool

    ghost predicate Valid()
      reads this, scope
    {
      scope.Valid()
    }

    ghost function StateNow(): State
      reads this, scope, scope.variables
    {
      State(CellsOf(scope.variables), scope.started, bar, closed)
    }

    constructor (scope: Scope, script: Option<Script>)
      requires scope.Valid()
      ensures Valid() && this.scope == scope && this.script == script && bar == None && !closed
    {
      this.scope, this.script := scope, script;
      bar, closed := None, false;
    }

    method SetScript(script: Script)
      modifies this`script
      ensures this.script == Some(script)
    {
      this.script := Some(script);
    }

    /** The lifecycle hooks before the script runs. */
    method OpenBar(b: Bar)
      requires Valid()
      modifies this`bar, this`closed, scope, scope.variables
      ensures Valid() && scope.variables == old(scope.variables) && scope.snapshotContext == old(scope.snapshotContext)
      ensures StateNow() == Opened(DeclsOf(scope.variables), old(StateNow()), b)
    {
      if bar.Some? && bar.value != b.index {
        if !closed {
          scope.OnBarClose();
          closed := true;
        }
      }
      if bar != Some(b.index) || closed {
        scope.OnBarStart(b.index);
        bar := Some(b.index);
        closed := false;
      }
    }

    /** The body of the try block of process_tick. */
    method Attempt(s: Script, b: Bar, tick: Option<Tick>) returns (raised: bool)
      requires Valid()
      modifies this`bar, this`closed, scope, scope.variables
      ensures Valid() && scope.variables == old(scope.variables) && scope.snapshotContext == old(scope.snapshotContext)
      ensures raised == Sees(DeclsOf(scope.variables), s, old(StateNow()), b, tick).raised
      ensures !raised ==> StateNow() == Step(DeclsOf(scope.variables), s, old(StateNow()), b, tick)
    {
      hide CellsOf, CellOf, DeclsOf, Opened, StartBars, EndTicks, CloseBars, Write, Values;
      OpenBar(b);
      var effect := s(Values(CellsOf(scope.variables)), b, tick);
      scope.SetValues(effect.values);
      if effect.raised {
        return true;
      }
      var confirmed := if tick.Some? then tick.value.confirmed else true;
      scope.OnTickEnd(confirmed);
      if confirmed {
        scope.OnBarClose();
        closed := true;
      }
      raised := false;
    }

    method ProcessTick(b: Bar, tick: Option<Tick>) returns (outcome: TickOutcome)
      requires Valid()
      modifies this`bar, this`closed, scope, scope.variables
      ensures Valid() && scope.variables == old(scope.variables)
      ensures !outcome.NoBars? && (outcome.NoScript? <==> script.None?)
      ensures outcome.NoScript? ==> StateNow() == old(StateNow())
      ensures script.Some? ==>
        && StateNow() == Step(DeclsOf(scope.variables), script.value, old(StateNow()), b, tick)
        && outcome.RolledBack? == Sees(DeclsOf(scope.variables), script.value, old(StateNow()), b, tick).raised
      ensures outcome.RolledBack? ==> StateNow() == old(StateNow()) && scope.currentBar == old(scope.currentBar)
    {
      hide CellsOf, CellOf, DeclsOf, Sees, Opened, EndTicks, CloseBars, Write;
      if script.None? {
        return NoScript;
      }
      var snapshot := scope.Snapshot();
      var prevBar, prevClosed := bar, closed;
      var raised := Attempt(script.value, b, tick);
      if raised {
        scope.RestoreSnapshot(snapshot);
        bar := prevBar;
        closed := prevClosed;
        return RolledBack;
      }
      outcome := Ran;
    }

    /** process_bar: every given tick, or the bar's close, up to the first that raises. */
    method ProcessBar(b: Bar, ticks: seq<Tick>) returns (outcome: TickOutcome)
      requires Valid()
      modifies this`bar, this`closed, scope, scope.variables
      ensures Valid() && scope.variables == old(scope.variables)
      ensures outcome.NoScript? <==> script.None?
      ensures outcome.NoScript? ==> StateNow() == old(StateNow())
      ensures script.Some? ==>
        Fed(DeclsOf(scope.variables), script.value, old(StateNow()), BarFeed(b, ticks), outcome, StateNow())
    {
      if script.None? {
        return NoScript;
      }
      hide Step, Sees, CellsOf, DeclsOf;
      ghost var feed, decls, first := BarFeed(b, ticks), DeclsOf(scope.variables), StateNow();
      FedNone(decls, script.value, first, feed);
      if ticks != [] {
        for i := 0 to |ticks|
          invariant Valid() && scope.variables == old(scope.variables) && DeclsOf(scope.variables) == decls
          invariant Fed(decls, script.value, first, feed[..i], Ran, StateNow())
        {
          ghost var before := StateNow();
          outcome := ProcessTick(b, Some(ticks[i]));
          FedTick(decls, script.value, first, before, feed, i, outcome, StateNow());
          if outcome.RolledBack? {
            return;
          }
        }
        assert feed[..|ticks|] == feed;
        outcome := Ran;
      } else {
        outcome := ProcessTick(b, None);
        FedTick(decls, script.value, first, first, feed, 0, outcome, StateNow());
      }
    }

    /** process_historical: every bar as one confirmed tick, up to the first that raises. */
    method ProcessHistorical(bars: seq<Bar>) returns (outcome: TickOutcome)
      requires Valid()
      modifies this`bar, this`closed, scope, scope.variables
      ensures Valid() && scope.variables == old(scope.variables)
      ensures outcome.NoBars? <==> bars == []
      ensures outcome.NoScript? <==> bars != [] && script.None?
      ensures outcome.NoBars? || outcome.NoScript? ==> StateNow() == old(StateNow())
      ensures bars != [] && script.Some? ==>
        Fed(DeclsOf(scope.variables), script.value, old(StateNow()), Closes(bars), outcome, StateNow())
    {
      if bars == [] {
        return NoBars;
      }
      if script.None? {
        return NoScript;
      }
      hide Step, Sees, CellsOf, DeclsOf, Fed;
      ghost var feed, decls, first := Closes(bars), DeclsOf(scope.variables), StateNow();
      FedNone(decls, script.value, first, feed);
      for i := 0 to |bars|
        invariant Valid() && scope.variables == old(scope.variables) && DeclsOf(scope.variables) == decls
        invariant Fed(decls, script.value, first, feed[..i], Ran, StateNow())
      {
        ghost var before := StateNow();
        outcome := ProcessBar(bars[i], []);
        FedBar(decls, script.value, first, before, feed, i, outcome, StateNow());
        if outcome.RolledBack? {
          return;
        }
      }
      assert feed[..|bars|] == feed;
      outcome := Ran;
    }
  }

  function BarFeed(b: Bar, ticks: seq<Tick>): Feed {
    if ticks == [] then [(b, None)] else seq(|ticks|, i requires 0 <= i < |ticks| => (b, Some(ticks[i])))
  }

  function Closes(bars: seq<Bar>): Feed {
    seq(|bars|, i requires 0 <= i < |bars| => (bars[i], None))
  }

  /** From s, the feed ran up to its first raising tick, which left no trace, and ended in t. */
  predicate Fed(decls: seq<Decl>, script: Script, s: State, feed: Feed, outcome: TickOutcome, t: State)
    requires |s.cells| == |decls|
  {
    var n := Passed(decls, script, s, feed);
    && t == RunFrom(decls, script, s, feed[..n])
    && outcome == (if n == |feed| then Ran else RolledBack)
  }

  lemma FedNone(decls: seq<Decl>, script: Script, s: State, feed: Feed)
    requires |s.cells| == |decls|
    ensures Fed(decls, script, s, feed[..0], Ran, s)
  {
    assert feed[..0] == feed[..0][..0] == [];
  }

  /** One more tick of a feed that has not raised yet. */
  lemma FedTick(decls: seq<Decl>, script: Script, s: State, before: State, feed: Feed, i: nat, outcome: TickOutcome,
                t: State)
    requires |s.cells| == |before.cells| == |decls| && i < |feed|
    requires Fed(decls, script, s, feed[..i], Ran, before)
    requires t == Step(decls, script, before, feed[i].0, feed[i].1)
    requires outcome == (if Sees(decls, script, before, feed[i].0, feed[i].1).raised then RolledBack else Ran)
    ensures Fed(decls, script, s, if outcome.Ran? then feed[..i + 1] else feed, outcome, t)
  {
    hide Step, Sees;
    var upTo := feed[..i + 1];
    assert upTo[..i] == feed[..i] == feed[..i][..i] && upTo[i] == feed[i];
    assert RaisesAt(decls, script, s, upTo, i) == Sees(decls, script, before, feed[i].0, feed[i].1).raised;
    if outcome.RolledBack? {
      RolledBackStep(decls, script, before, feed[i].0, feed[i].1);
      PassedStops(decls, script, s, feed, i + 1);
    } else {
      assert upTo[..i + 1] == upTo;
    }
  }

  /** The same for a bar close. */
  lemma FedBar(decls: seq<Decl>, script: Script, s: State, before: State, feed: Feed, i: nat, outcome: TickOutcome,
               t: State)
    requires |s.cells| == |before.cells| == |decls| && i < |feed| && feed[i].1.None?
    requires Fed(decls, script, s, feed[..i], Ran, before)
    requires Fed(decls, script, before, BarFeed(feed[i].0, []), outcome, t)
    ensures Fed(decls, script, s, if outcome.Ran? then feed[..i + 1] else feed, outcome, t)
  {
    hide Step, Sees;
    var one := BarFeed(feed[i].0, []);
    assert one[..0] == [] && one[..1] == one && one == [feed[i]];
    assert RunFrom(decls, script, before, one[..0]) == before;
    assert RaisesAt(decls, script, before, one, 0) == Sees(decls, script, before, feed[i].0, feed[i].1).raised;
    if outcome.RolledBack? {
      RolledBackStep(decls, script, before, feed[i].0, feed[i].1);
    }
    FedTick(decls, script, s, before, feed, i, outcome, t);
  }

}
