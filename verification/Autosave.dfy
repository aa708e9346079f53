/** src/services/autosave_engine.py as a protocol: process_delta calls that interleave at
    every await, with one lock per chart, against running the calls one after another. */
module Autosave {
  import opened Options

  type ChartId = string
  type Data = map<string, string>

  datatype Chart = Chart(chartId: ChartId, version: nat, data: Data, userId: Option<string>)

  datatype Delta = Delta(chartId: ChartId, expected: nat, changes: Data)

  datatype Reply = NotFound | Conflict(current: nat) | Saved(chart: Chart)

  type Store = map<ChartId, Chart>

  /** Where one process_delta call stands. */
  datatype Pc =
    | Idle
    | Waiting
    | Locked
    | HasRead(chart: Option<Chart>)
    | Saving(updated: Chart)
    | Leaving(updated: Chart)
    | Finished(reply: Reply)

  /** locks[c] is the holder of the lock of chart c; a missing key is a lock not yet made.
      history lists the calls in the order in which they took effect. */
  datatype State = State(
    store: Store,
    locks: map<ChartId, Option<nat>>,
    pcs: seq<Pc>,
    history: seq<(nat, Reply)>)

  function Initial(store: Store, calls: nat): State {
    State(store, map[], seq(calls, _ => Idle), [])
  }

  // ---- the sequential meaning of a call ----

  function Merge(c: Chart, d: Delta): Chart {
    Chart(c.chartId, c.version + 1, c.data + d.changes, c.userId)
  }

  function Answer(store: Store, d: Delta): Reply {
    if d.chartId !in store then NotFound
    else if store[d.chartId].version != d.expected then Conflict(store[d.chartId].version)
    else Saved(Merge(store[d.chartId], d))
  }

  function After(store: Store, r: Reply): Store {
    if r.Saved? then store[r.chart.chartId := r.chart] else store
  }

  /** The store after the calls of a history one after another, each run to its end. */
  function Sequential(store: Store, ds: seq<Delta>, history: seq<(nat, Reply)>): Store
    requires forall k :: 0 <= k < |history| ==> history[k].0 < |ds|
  {
    if history == [] then store
    else
      var before := Sequential(store, ds, history[..|history|-1]);
      After(before, Answer(before, ds[history[|history|-1].0]))
  }

  // ---- one step of one call ----

  function Release(s: State, c: ChartId): State {
    s.(locks := s.locks[c := None])
  }

  predicate Enabled(ds: seq<Delta>, s: State, i: nat)
    requires i < |s.pcs| == |ds|
  {
    && !s.pcs[i].Finished?
    && (s.pcs[i].Waiting? ==> ds[i].chartId in s.locks && s.locks[ds[i].chartId] == None)
  }

  /** Call i runs up to its next await. */
  function Step(ds: seq<Delta>, s: State, i: nat): (t: State)
    requires i < |s.pcs| == |ds|
    ensures |t.pcs| == |s.pcs|
  {
    var d := ds[i];
    if !Enabled(ds, s, i) then s
    else match s.pcs[i]
      case Idle =>
        s.(locks := if d.chartId in s.locks then s.locks else s.locks[d.chartId := None], pcs := s.pcs[i := Waiting])
      case Waiting => s.(locks := s.locks[d.chartId := Some(i)], pcs := s.pcs[i := Locked])
      case Locked =>
        s.(pcs := s.pcs[i := HasRead(if d.chartId in s.store then Some(s.store[d.chartId]) else None)])
      case HasRead(chart) =>
        if chart.None? then
          Release(s, d.chartId).(pcs := s.pcs[i := Finished(NotFound)], history := s.history + [(i, NotFound)])
        else if chart.value.version != d.expected then
          var r := Conflict(chart.value.version);
          Release(s, d.chartId).(pcs := s.pcs[i := Finished(r)], history := s.history + [(i, r)])
        else s.(pcs := s.pcs[i := Saving(Merge(chart.value, d))])
      case Saving(updated) =>
        s.(store := s.store[updated.chartId := updated], pcs := s.pcs[i := Leaving(updated)],
           history := s.history + [(i, Saved(updated))])
      case Leaving(updated) => Release(s, d.chartId).(pcs := s.pcs[i := Finished(Saved(updated))])
      case Finished(_) => s
  }

  /** A schedule names the call that moves next; a call that cannot move stays put. */
  function Run(store: Store, ds: seq<Delta>, schedule: seq<nat>): (s: State)
    ensures |s.pcs| == |ds|
  {
    if schedule == [] then Initial(store, |ds|)
    else
      var s := Run(store, ds, schedule[..|schedule|-1]);
      var i := schedule[|schedule|-1];
      if i < |ds| then Step(ds, s, i) else s
  }

  // ---- what every interleaving keeps ----

  predicate Keyed(store: Store) {
    forall c :: c in store ==> store[c].chartId == c
  }

  predicate InCritical(pc: Pc) {
    pc.Locked? || pc.HasRead? || pc.Saving? || pc.Leaving?
  }

  /** Call i holds the lock while inside it, and what it has read is still what is stored. */
  predicate GuardedAt(ds: seq<Delta>, s: State, i: nat)
    requires i < |ds| == |s.pcs|
  {
    var c, pc := ds[i].chartId, s.pcs[i];
    && (InCritical(pc) ==> c in s.locks && s.locks[c] == Some(i))
    && (pc.HasRead? ==> pc.chart == if c in s.store then Some(s.store[c]) else None)
    && (pc.Saving? ==> c in s.store && s.store[c].version == ds[i].expected && pc.updated == Merge(s.store[c], ds[i]))
  }

  predicate Guarded(ds: seq<Delta>, s: State) {
    |s.pcs| == |ds| && Keyed(s.store) && forall i :: 0 <= i < |ds| ==> GuardedAt(ds, s, i)
  }

  lemma StepGuarded(ds: seq<Delta>, s: State, i: nat)
    requires Guarded(ds, s) && i < |ds|
    ensures Guarded(ds, Step(ds, s, i))
  {
    StepGuardsMover(ds, s, i);
    forall j | 0 <= j < |ds| && j != i
      ensures GuardedAt(ds, Step(ds, s, i), j)
    {
      StepGuardsOther(ds, s, i, j);
    }
  }

  lemma StepGuardsMover(ds: seq<Delta>, s: State, i: nat)
    requires |s.pcs| == |ds| && i < |ds| && Keyed(s.store) && GuardedAt(ds, s, i)
    ensures Keyed(Step(ds, s, i).store) && GuardedAt(ds, Step(ds, s, i), i)
  {
  }

  lemma StepGuardsOther(ds: seq<Delta>, s: State, i: nat, j: nat)
    requires |s.pcs| == |ds| && i < |ds| && j < |ds| && i != j && Keyed(s.store)
    requires GuardedAt(ds, s, i) && GuardedAt(ds, s, j)
    ensures GuardedAt(ds, Step(ds, s, i), j)
  {
    hide Step, Keyed;
    StepElsewhere(ds, s, i, j);
    if InCritical(s.pcs[j]) {
      LockElsewhere(ds, s, i, ds[j].chartId);
      StoreElsewhere(ds, s, i, ds[j].chartId);
    }
  }

  /** A step moves one call only. */
  lemma StepElsewhere(ds: seq<Delta>, s: State, i: nat, j: nat)
    requires |s.pcs| == |ds| && i < |ds| && j < |ds| && i != j
    ensures Step(ds, s, i).pcs[j] == s.pcs[j]
  {
  }

  /** It leaves alone the locks of other charts, and a lock of its own chart that another call
      holds. */
  lemma LockElsewhere(ds: seq<Delta>, s: State, i: nat, c: ChartId)
    requires |s.pcs| == |ds| && i < |ds|
    requires c == ds[i].chartId ==> c in s.locks && s.locks[c].Some? && !InCritical(s.pcs[i])
    ensures c in Step(ds, s, i).locks <==> c in s.locks
    ensures c in s.locks ==> Step(ds, s, i).locks[c] == s.locks[c]
  {
  }

  /** It writes its own chart only, and that only inside the lock. */
  lemma StoreElsewhere(ds: seq<Delta>, s: State, i: nat, c: ChartId)
    requires |s.pcs| == |ds| && i < |ds| && Keyed(s.store) && GuardedAt(ds, s, i)
    requires c == ds[i].chartId ==> !InCritical(s.pcs[i])
    ensures c in Step(ds, s, i).store <==> c in s.store
    ensures c in s.store ==> Step(ds, s, i).store[c] == s.store[c]
  {
    if s.pcs[i].Saving? {
      assert s.pcs[i].updated.chartId == ds[i].chartId;
    }
  }

  /** The history replays: each reply is the sequential one, and so is the store. */
  predicate Replays(store: Store, ds: seq<Delta>, history: seq<(nat, Reply)>, end: Store) {
    && (forall k :: 0 <= k < |history| ==> history[k].0 < |ds|)
    && Sequential(store, ds, history) == end
    && forall k :: 0 <= k < |history| ==>
         history[k].1 == Answer(Sequential(store, ds, history[..k]), ds[history[k].0])
  }

  lemma ReplaysAppend(store: Store, ds: seq<Delta>, history: seq<(nat, Reply)>, end: Store, i: nat)
    requires Replays(store, ds, history, end) && i < |ds|
    ensures Replays(store, ds, history + [(i, Answer(end, ds[i]))], After(end, Answer(end, ds[i])))
  {
    var n, h := |history|, history + [(i, Answer(end, ds[i]))];
    assert h[..n] == history;
    forall k | 0 <= k < n
      ensures h[k].1 == Answer(Sequential(store, ds, h[..k]), ds[h[k].0])
    {
      assert h[..k] == history[..k];
    }
  }

  lemma StepReplays(store: Store, ds: seq<Delta>, s: State, i: nat)
    requires Guarded(ds, s) && Replays(store, ds, s.history, s.store) && i < |ds|
    ensures Replays(store, ds, Step(ds, s, i).history, Step(ds, s, i).store)
  {
    hide Replays;
    assert GuardedAt(ds, s, i);
    ReplaysAppend(store, ds, s.history, s.store, i);
  }

  /** Each call takes effect at most once, and a finished call returned what it did then. */
  ghost predicate Recorded(ds: seq<Delta>, pcs: seq<Pc>, history: seq<(nat, Reply)>) {
    && |pcs| == |ds|
    && (forall j, k :: 0 <= j < k < |history| ==> history[j].0 != history[k].0)
    && (forall k :: 0 <= k < |history| ==>
          history[k].0 < |ds| && Took(pcs[history[k].0], history[k].1))
    && (forall i, r :: 0 <= i < |ds| && Took(pcs[i], r) ==> (i, r) in history)
  }

  /** This call has taken effect with reply r. */
  predicate Took(pc: Pc, r: Reply) {
    pc == Finished(r) || (r.Saved? && pc == Leaving(r.chart))
  }

  predicate Pending(pc: Pc) {
    !pc.Finished? && !pc.Leaving?
  }

  lemma RecordedMove(ds: seq<Delta>, pcs: seq<Pc>, history: seq<(nat, Reply)>, i: nat, pc: Pc)
    requires Recorded(ds, pcs, history) && i < |ds|
    requires forall r :: Took(pc, r) <==> Took(pcs[i], r)
    ensures Recorded(ds, pcs[i := pc], history)
  {
  }

  lemma RecordedAppend(ds: seq<Delta>, pcs: seq<Pc>, history: seq<(nat, Reply)>, i: nat, pc: Pc, r: Reply)
    requires Recorded(ds, pcs, history) && i < |ds| && Pending(pcs[i]) && Took(pc, r)
    ensures Recorded(ds, pcs[i := pc], history + [(i, r)])
  {
    var h, qs := history + [(i, r)], pcs[i := pc];
    assert h[|history|] == (i, r);
    forall j, q | 0 <= j < |ds| && Took(qs[j], q)
      ensures (j, q) in h
    {
      if j != i {
        assert (j, q) in history;
      }
    }
  }

  /** Where a call that took effect stands in the history. */
  lemma Entry(ds: seq<Delta>, pcs: seq<Pc>, history: seq<(nat, Reply)>, i: nat, r: Reply) returns (k: nat)
    requires Recorded(ds, pcs, history) && i < |pcs| && Took(pcs[i], r)
    ensures k < |history| && history[k] == (i, r)
  {
    assert (i, r) in history;
    k :| k < |history| && history[k] == (i, r);
  }

  lemma StepRecorded(ds: seq<Delta>, s: State, i: nat)
    requires Recorded(ds, s.pcs, s.history) && |s.pcs| == |ds| && i < |ds|
    ensures Recorded(ds, Step(ds, s, i).pcs, Step(ds, s, i).history)
  {
    hide Recorded;
    var t := Step(ds, s, i);
    if t.history == s.history {
      RecordedMove(ds, s.pcs, s.history, i, t.pcs[i]);
      assert t.pcs == s.pcs[i := t.pcs[i]];
    } else {
      RecordedAppend(ds, s.pcs, s.history, i, t.pcs[i], t.history[|s.history|].1);
    }
  }

  /** Every interleaving of the calls is one of their sequential orders: the store and all
      replies are those of running the calls one by one in the order of the history. */
  lemma {:induction false} Linearizable(store: Store, ds: seq<Delta>, schedule: seq<nat>)
    requires Keyed(store)
    ensures
      var s := Run(store, ds, schedule);
      Guarded(ds, s) && Replays(store, ds, s.history, s.store) && Recorded(ds, s.pcs, s.history)
    decreases |schedule|
  {
    if schedule != [] {
      var before, i := schedule[..|schedule|-1], schedule[|schedule|-1];
      Linearizable(store, ds, before);
      if i < |ds| {
        StepGuarded(ds, Run(store, ds, before), i);
        StepReplays(store, ds, Run(store, ds, before), i);
        StepRecorded(ds, Run(store, ds, before), i);
      }
    }
  }

  /** What a caller is told of the stored chart when its call takes effect: that there is none, the
      stored version when it is not the expected one, or the chart it has itself made of it. */
  predicate Told(now: Store, d: Delta, r: Reply) {
    match r
    case NotFound => d.chartId !in now
    case Conflict(current) =>
      d.chartId in now && current == now[d.chartId].version && current != d.expected
    case Saved(chart) =>
      && d.chartId in now && now[d.chartId].version == d.expected
      && chart.chartId == d.chartId && chart.version == d.expected + 1 && chart.userId == now[d.chartId].userId
      && chart.data.Keys == now[d.chartId].data.Keys + d.changes.Keys
      && (forall k :: k in chart.data ==>
            chart.data[k] == if k in d.changes then d.changes[k] else now[d.chartId].data[k])
  }

  /** Under every interleaving each reply tells the truth about the store as the calls before it
      have left it, and only an accepted call changes that: its own chart, to what it replied. */
  lemma RepliesTold(store: Store, ds: seq<Delta>, schedule: seq<nat>, k: nat)
    requires Keyed(store) && k < |Run(store, ds, schedule).history|
    ensures
      var s := Run(store, ds, schedule);
      && Replays(store, ds, s.history, s.store)
      && var (i, r) := s.history[k];
      var now, next := Sequential(store, ds, s.history[..k]), Sequential(store, ds, s.history[..k + 1]);
      && Told(now, ds[i], r)
      && next == if r.Saved? then now[ds[i].chartId := r.chart] else now
  {
    hide Run, Guarded, Recorded, Keyed, Answer;
    var s := Run(store, ds, schedule);
    Linearizable(store, ds, schedule);
    var d, now := ds[s.history[k].0], Sequential(store, ds, s.history[..k]);
    SequentialKeyed(store, ds, s.history[..k]);
    assert s.history[..k + 1][..k] == s.history[..k];
    AnswerTold(now, d);
  }

  lemma AnswerTold(now: Store, d: Delta)
    requires Keyed(now)
    ensures Told(now, d, Answer(now, d))
  {
  }

  // ---- progress ----

  predicate HeldBy(ds: seq<Delta>, s: State, c: ChartId, i: nat)
    requires |s.pcs| == |ds|
  {
    i < |ds| && ds[i].chartId == c && InCritical(s.pcs[i])
  }

  /** A taken lock is held by a call of that chart which is inside it, and a call waits for a
      lock that has been made. */
  predicate Held(ds: seq<Delta>, s: State) {
    && |s.pcs| == |ds|
    && (forall c :: c in s.locks && s.locks[c].Some? ==> HeldBy(ds, s, c, s.locks[c].value))
    && forall i :: 0 <= i < |ds| && s.pcs[i].Waiting? ==> ds[i].chartId in s.locks
  }

  predicate AllFinished(s: State) {
    forall i :: 0 <= i < |s.pcs| ==> s.pcs[i].Finished?
  }

  /** The most steps a call can still take. */
  function CallLeft(pc: Pc): nat {
    match pc
    case Idle => 6
    case Waiting => 5
    case Locked => 4
    case HasRead(_) => 3
    case Saving(_) => 2
    case Leaving(_) => 1
    case Finished(_) => 0
  }

  function StepsLeft(pcs: seq<Pc>): nat {
    if pcs == [] then 0 else StepsLeft(pcs[..|pcs|-1]) + CallLeft(pcs[|pcs|-1])
  }

  lemma {:induction false} LeftAfter(pcs: seq<Pc>, i: nat, pc: Pc)
    requires i < |pcs|
    ensures StepsLeft(pcs[i := pc]) == StepsLeft(pcs) - CallLeft(pcs[i]) + CallLeft(pc)
    decreases |pcs|
  {
    var n := |pcs| - 1;
    if i < n {
      LeftAfter(pcs[..n], i, pc);
      assert pcs[i := pc][..n] == pcs[..n][i := pc];
    } else {
      assert pcs[i := pc][..n] == pcs[..n];
    }
  }

  lemma {:induction false} LeftAtFirst(pcs: seq<Pc>)
    requires forall i :: 0 <= i < |pcs| ==> pcs[i].Idle?
    ensures StepsLeft(pcs) == 6 * |pcs|
    decreases |pcs|
  {
    if pcs != [] {
      LeftAtFirst(pcs[..|pcs| - 1]);
    }
  }

  lemma AllHeld(ds: seq<Delta>, s: State)
    requires |s.pcs| == |ds|
    requires forall c :: c in s.locks && s.locks[c].Some? ==> HeldBy(ds, s, c, s.locks[c].value)
    requires forall i :: 0 <= i < |ds| && s.pcs[i].Waiting? ==> ds[i].chartId in s.locks
    ensures Held(ds, s)
  {
  }

  lemma StepHolder(ds: seq<Delta>, s: State, i: nat, c: ChartId)
    requires Held(ds, s) && i < |ds| && c in Step(ds, s, i).locks && Step(ds, s, i).locks[c].Some?
    ensures HeldBy(ds, Step(ds, s, i), c, Step(ds, s, i).locks[c].value)
  {
    hide Step;
    if c == ds[i].chartId {
      OwnLock(ds, s, i);
    } else {
      LockElsewhere(ds, s, i, c);
    }
    var k := Step(ds, s, i).locks[c].value;
    if k != i {
      assert HeldBy(ds, s, c, k);
      StepElsewhere(ds, s, i, k);
    }
  }

  /** The lock of the moving call's chart stays with another call, or is free, or becomes its own. */
  lemma OwnLock(ds: seq<Delta>, s: State, i: nat)
    requires |s.pcs| == |ds| && i < |ds|
    requires var c := ds[i].chartId; c in s.locks && s.locks[c] == Some(i) ==> InCritical(s.pcs[i])
    ensures
      var c, t := ds[i].chartId, Step(ds, s, i);
      c in t.locks && t.locks[c].Some? ==>
        if t.locks[c].value == i then InCritical(t.pcs[i]) else c in s.locks && s.locks[c] == t.locks[c]
  {
  }

  lemma StepWaiting(ds: seq<Delta>, s: State, i: nat, j: nat)
    requires Held(ds, s) && i < |ds| && j < |ds| && Step(ds, s, i).pcs[j].Waiting?
    ensures ds[j].chartId in Step(ds, s, i).locks
  {
    if j != i {
      StepElsewhere(ds, s, i, j);
    }
  }

  /** Every step keeps the locks held by calls that can give them back. */
  lemma StepHeld(ds: seq<Delta>, s: State, i: nat)
    requires Held(ds, s) && i < |ds|
    ensures Held(ds, Step(ds, s, i))
  {
    assert |s.pcs| == |ds|;
    hide Step, Held;
    var t := Step(ds, s, i);
    forall c | c in t.locks && t.locks[c].Some?
      ensures HeldBy(ds, t, c, t.locks[c].value)
    {
      StepHolder(ds, s, i, c);
    }
    forall j | 0 <= j < |ds| && t.pcs[j].Waiting?
      ensures ds[j].chartId in t.locks
    {
      StepWaiting(ds, s, i, j);
    }
    AllHeld(ds, t);
  }

  /** Every step that is taken brings the end nearer. */
  lemma StepNearer(ds: seq<Delta>, s: State, i: nat)
    requires i < |s.pcs| == |ds| && Enabled(ds, s, i)
    ensures StepsLeft(Step(ds, s, i).pcs) < StepsLeft(s.pcs)
  {
    hide StepsLeft;
    var t := Step(ds, s, i);
    assert t.pcs == s.pcs[i := t.pcs[i]];
    LeftAfter(s.pcs, i, t.pcs[i]);
  }

  /** As long as some call is unfinished, some call can move. */
  lemma SomeoneMoves(ds: seq<Delta>, s: State) returns (i: nat)
    requires Held(ds, s) && !AllFinished(s)
    ensures i < |ds| && Enabled(ds, s, i)
  {
    i :| i < |s.pcs| && !s.pcs[i].Finished?;
    if !Enabled(ds, s, i) {
      i := s.locks[ds[i].chartId].value;
    }
  }

  /** How many calls of a schedule really move. */
  function Moves(store: Store, ds: seq<Delta>, schedule: seq<nat>): nat {
    if schedule == [] then 0
    else
      var before, i := schedule[..|schedule|-1], schedule[|schedule|-1];
      Moves(store, ds, before) + if i < |ds| && Enabled(ds, Run(store, ds, before), i) then 1 else 0
  }

  /** No run deadlocks and none goes on for ever: at most six moves a call, and until all calls
      are finished some call can move. */
  lemma {:induction false} Progress(store: Store, ds: seq<Delta>, schedule: seq<nat>)
    ensures
      var s := Run(store, ds, schedule);
      && Held(ds, s) && Moves(store, ds, schedule) + StepsLeft(s.pcs) <= 6 * |ds|
      && (AllFinished(s) <==> forall i :: 0 <= i < |ds| ==> !Enabled(ds, s, i))
    decreases |schedule|
  {
    hide Held, StepsLeft, Step;
    var s := Run(store, ds, schedule);
    if schedule == [] {
      InitialHeld(store, ds);
    } else {
      var before, i := schedule[..|schedule|-1], schedule[|schedule|-1];
      Progress(store, ds, before);
      if i < |ds| {
        var last := Run(store, ds, before);
        StepHeld(ds, last, i);
        StuckStays(ds, last, i);
        if Enabled(ds, last, i) {
          StepNearer(ds, last, i);
        }
      }
    }
    if !AllFinished(s) {
      var j := SomeoneMoves(ds, s);
    }
  }

  lemma InitialHeld(store: Store, ds: seq<Delta>)
    ensures Held(ds, Initial(store, |ds|)) && StepsLeft(Initial(store, |ds|).pcs) == 6 * |ds|
  {
    LeftAtFirst(Initial(store, |ds|).pcs);
  }

  lemma StuckStays(ds: seq<Delta>, s: State, i: nat)
    requires i < |s.pcs| == |ds|
    ensures !Enabled(ds, s, i) ==> Step(ds, s, i) == s
  {
  }

  /** Every run can be brought to its end, where each call has replied. */
  lemma {:induction false} Finishes(store: Store, ds: seq<Delta>, schedule: seq<nat>) returns (more: seq<nat>)
    ensures AllFinished(Run(store, ds, schedule + more))
    ensures |more| <= StepsLeft(Run(store, ds, schedule).pcs)
    decreases StepsLeft(Run(store, ds, schedule).pcs)
  {
    hide Held, StepsLeft, Step, AllFinished;
    var s := Run(store, ds, schedule);
    Progress(store, ds, schedule);
    more := [];
    assert schedule + more == schedule;
    if !AllFinished(s) {
      var i := SomeoneMoves(ds, s);
      StepNearer(ds, s, i);
      assert (schedule + [i])[..|schedule|] == schedule;
      var rest := Finishes(store, ds, schedule + [i]);
      assert schedule + [i] + rest == schedule + ([i] + rest);
      more := [i] + rest;
    }
  }

  // ---- the version chain ----

  /** The accepted deltas of one chart, in order. */
  function Accepted(ds: seq<Delta>, history: seq<(nat, Reply)>, c: ChartId): seq<Delta>
    requires forall k :: 0 <= k < |history| ==> history[k].0 < |ds|
  {
    if history == [] then []
    else
      var (i, r) := history[|history|-1];
      Accepted(ds, history[..|history|-1], c) + if r.Saved? && ds[i].chartId == c then [ds[i]] else []
  }

  function Fold(data: Data, ds: seq<Delta>): Data {
    if ds == [] then data else Fold(data, ds[..|ds|-1]) + ds[|ds|-1].changes
  }

  lemma {:induction false} SequentialKeyed(store: Store, ds: seq<Delta>, history: seq<(nat, Reply)>)
    requires Keyed(store) && forall k :: 0 <= k < |history| ==> history[k].0 < |ds|
    ensures Keyed(Sequential(store, ds, history)) && Sequential(store, ds, history).Keys == store.Keys
    decreases |history|
  {
    if history != [] {
      SequentialKeyed(store, ds, history[..|history|-1]);
    }
  }

  lemma {:induction false} ChainOf(store: Store, ds: seq<Delta>, history: seq<(nat, Reply)>, c: ChartId)
    requires Keyed(store) && c in store
    requires forall k :: 0 <= k < |history| ==> history[k].0 < |ds|
    requires forall k :: 0 <= k < |history| ==>
      history[k].1 == Answer(Sequential(store, ds, history[..k]), ds[history[k].0])
    ensures
      var acc, end := Accepted(ds, history, c), Sequential(store, ds, history);
      && c in end && end[c].version == store[c].version + |acc|
      && end[c].data == Fold(store[c].data, acc) && end[c].userId == store[c].userId
      && forall k :: 0 <= k < |acc| ==> acc[k].expected == store[c].version + k
    decreases |history|
  {
    if history != [] {
      var n := |history| - 1;
      var h := history[..n];
      forall k | 0 <= k < n
        ensures h[k].1 == Answer(Sequential(store, ds, h[..k]), ds[h[k].0])
      {
        assert h[..k] == history[..k];
      }
      ChainOf(store, ds, h, c);
      SequentialKeyed(store, ds, h);
      var acc := Accepted(ds, h, c);
      var d := ds[history[n].0];
      if history[n].1.Saved? && d.chartId == c {
        assert (acc + [d])[..|acc|] == acc;
      } else {
        assert acc + [] == acc;
      }
    }
  }

  /** Under every interleaving the accepted deltas of a chart expect the versions v, v+1,
      v+2, .. in turn, the stored version counts them, and the stored data is their fold. */
  lemma VersionChain(store: Store, ds: seq<Delta>, schedule: seq<nat>, c: ChartId)
    requires Keyed(store) && c in store
    ensures
      var s := Run(store, ds, schedule);
      && Replays(store, ds, s.history, s.store)
      && var acc := Accepted(ds, s.history, c);
      && c in s.store && s.store[c].version == store[c].version + |acc|
      && s.store[c].data == Fold(store[c].data, acc)
      && forall k :: 0 <= k < |acc| ==> acc[k].expected == store[c].version + k
  {
    Linearizable(store, ds, schedule);
    ChainOf(store, ds, Run(store, ds, schedule).history, c);
  }

  /** At most one call per expected version of a chart is ever accepted. */
  lemma OneWinnerPerVersion(store: Store, ds: seq<Delta>, schedule: seq<nat>, i: nat, j: nat)
    requires Keyed(store) && i < |ds| && j < |ds| && i != j
    requires ds[i].chartId == ds[j].chartId && ds[i].expected == ds[j].expected
    ensures
      var pcs := Run(store, ds, schedule).pcs;
      !(pcs[i].Finished? && pcs[i].reply.Saved? && pcs[j].Finished? && pcs[j].reply.Saved?)
  {
    hide Run, Sequential, Guarded, Recorded, Keyed;
    var s := Run(store, ds, schedule);
    Linearizable(store, ds, schedule);
    if s.pcs[i].Finished? && s.pcs[i].reply.Saved? && s.pcs[j].Finished? && s.pcs[j].reply.Saved? {
      var k := Entry(ds, s.pcs, s.history, i, s.pcs[i].reply);
      var l := Entry(ds, s.pcs, s.history, j, s.pcs[j].reply);
      LaterVersion(store, ds, s.history, if k < l then k else l, if k < l then l else k);
    }
  }

  /** Versions only grow: an accepted call finds a version above every earlier accepted one. */
  lemma {:induction false} LaterVersion(store: Store, ds: seq<Delta>, history: seq<(nat, Reply)>, k: nat, l: nat)
    requires Keyed(store) && k < l < |history|
    requires forall n :: 0 <= n < |history| ==> history[n].0 < |ds|
    requires forall n :: 0 <= n < |history| ==>
      history[n].1 == Answer(Sequential(store, ds, history[..n]), ds[history[n].0])
    requires history[k].1.Saved?
    ensures
      var c, now := ds[history[k].0].chartId, Sequential(store, ds, history[..l]);
      c in now && now[c].version > ds[history[k].0].expected
    decreases l
  {
    hide Answer, After, Keyed;
    var now, d := Sequential(store, ds, history[..l-1]), ds[history[l-1].0];
    assert history[..l][..l-1] == history[..l-1];
    SequentialKeyed(store, ds, history[..l-1]);
    if k < l - 1 {
      LaterVersion(store, ds, history, k, l - 1);
      AnswerRaises(now, d, ds[history[k].0].chartId);
    } else {
      AnswerCounts(now, d);
    }
  }

  lemma AnswerRaises(now: Store, d: Delta, c: ChartId)
    requires Keyed(now) && c in now
    ensures var later := After(now, Answer(now, d)); c in later && later[c].version >= now[c].version
  {}

  lemma AnswerCounts(now: Store, d: Delta)
    requires Keyed(now) && Answer(now, d).Saved?
    ensures var later := After(now, Answer(now, d)); d.chartId in later && later[d.chartId].version == d.expected + 1
  {}

}
