/**
 * The runs of the gate scheduler told from their events alone: which event may
 * come next after which others, and what each gate's result says.
 */
module GateTraces {
  import opened Prelude
  import opened GateGraph
  import opened GateScheduler
  import opened GateVerdicts

  // ---- What the events so far say of a gate ----

  predicate Untouched(trace: seq<Event>, id: string) {
    Start(id) !in trace && Settle(id) !in trace && Skip(id) !in trace
  }

  /** Started and not settled yet. */
  function Active(trace: seq<Event>): set<string> {
    set e | e in trace && e.Start? && Settle(e.id) !in trace :: e.id
  }

  predicate HasPassed(execute: string -> Status, trace: seq<Event>, id: string) {
    Settle(id) in trace && execute(id) == Passed
  }

  predicate HasFailed(execute: string -> Status, trace: seq<Event>, id: string) {
    (Settle(id) in trace && execute(id) != Passed) || Skip(id) in trace
  }

  predicate IsOver(trace: seq<Event>, id: string) {
    Settle(id) in trace || Skip(id) in trace
  }

  /** Untouched, all its needs passed, and all gates it comes after are over. */
  predicate MayStart(execute: string -> Status, trace: seq<Event>, g: Gate) {
    && Untouched(trace, g.id)
    && (forall n | n in g.needs :: HasPassed(execute, trace, n))
    && (forall a | a in g.after :: IsOver(trace, a))
  }

  /** Untouched, and some need failed or was skipped. */
  predicate MustSkip(execute: string -> Status, trace: seq<Event>, g: Gate) {
    Untouched(trace, g.id) && exists n | n in g.needs :: HasFailed(execute, trace, n)
  }

  /** The first gate of the list that satisfies a test has this id. */
  ghost predicate IsFirst(gates: seq<Gate>, test: Gate -> bool, id: string) {
    exists k: nat {:trigger gates[k]} :: k < |gates| && gates[k].id == id && test(gates[k]) && forall j | 0 <= j < k :: !test(gates[j])
  }

  /** The event may follow these events. */
  ghost predicate Legal(gates: seq<Gate>, maxActive: int, execute: string -> Status, trace: seq<Event>, e: Event) {
    var nothingMayStart := forall g | g in gates :: !MayStart(execute, trace, g);
    match e
    case Start(id) => |Active(trace)| < maxActive && IsFirst(gates, (g: Gate) => MayStart(execute, trace, g), id)
    case Settle(id) => id in Active(trace) && (|Active(trace)| >= maxActive || nothingMayStart)
    case Skip(id) => Active(trace) == {} && nothingMayStart && IsFirst(gates, (g: Gate) => MustSkip(execute, trace, g), id)
  }

  // ---- The machine's state says the same ----

  ghost predicate StateTold(execute: string -> Status, trace: seq<Event>, id: string, state: GateState) {
    match state
    case Pending => Untouched(trace, id)
    case Running => Start(id) in trace && !IsOver(trace, id)
    case Settled(status) =>
      if Settle(id) in trace then status == execute(id) && Start(id) in trace && Skip(id) !in trace
      else Skip(id) in trace && Start(id) !in trace && status == Skipped
  }

  ghost predicate ResultTold(execute: string -> Status, trace: seq<Event>, results: Results, id: string) {
    && (id in results <==> IsOver(trace, id))
    && (Settle(id) in trace ==> id in results && results[id] == Executed(execute(id)))
    && (id in results && Settle(id) !in trace ==> results[id].DependencyFailed?)
  }

  ghost predicate Agrees(gates: seq<Gate>, execute: string -> Status, trace: seq<Event>, s: Scheduler) {
    && s.states.Keys == IdSet(gates)
    && (forall id | id in s.states :: StateTold(execute, trace, id, s.states[id]))
    && (forall id {:trigger ResultTold(execute, trace, s.results, id)} :: ResultTold(execute, trace, s.results, id))
    && Elements(s.running) == Active(trace) && Distinct(s.running)
    && (forall e | e in trace :: e.id in IdSet(gates))
  }

  lemma OneMoreEvent(trace: seq<Event>, e: Event)
    ensures forall x :: x in trace + [e] <==> x in trace || x == e
  {
  }

  lemma EnabledHasId(gates: seq<Gate>, maxActive: int, execute: string -> Status, trace: seq<Event>, s: Scheduler, e: Event)
    requires Agrees(gates, execute, trace, s) && Enabled(gates, maxActive, s, e)
    ensures e.id in s.states
    ensures s.states[e.id] == if e.Settle? then Running else Pending
  {
    if e.Settle? {
      assert e.id in Elements(s.running);
      assert StateTold(execute, trace, e.id, s.states[e.id]);
      assert ResultTold(execute, trace, s.results, e.id);
      assert Start(e.id) in trace && Settle(e.id) !in trace;
    }
  }

  lemma ActiveAfter(trace: seq<Event>, e: Event)
    requires e.Start? ==> Settle(e.id) !in trace
    ensures Active(trace + [e]) == match e
                                   case Start(id) => Active(trace) + {id}
                                   case Settle(id) => Active(trace) - {id}
                                   case Skip(id) => Active(trace)
  {
    OneMoreEvent(trace, e);
    forall id ensures id in Active(trace + [e]) <==> Start(id) in trace + [e] && Settle(id) !in trace + [e] {
      if Start(id) in trace + [e] { assert Start(id).id == id; }
    }
    forall id ensures id in Active(trace) <==> Start(id) in trace && Settle(id) !in trace {
      if Start(id) in trace { assert Start(id).id == id; }
    }
  }

  lemma StateStaysTold(execute: string -> Status, trace: seq<Event>, e: Event, id: string, state: GateState)
    requires StateTold(execute, trace, id, state) && e.id != id
    ensures StateTold(execute, trace + [e], id, state)
  {
    OneMoreEvent(trace, e);
  }

  lemma StateChanges(gates: seq<Gate>, execute: string -> Status, trace: seq<Event>, s: Scheduler, e: Event)
    requires e.id in s.states && StateTold(execute, trace, e.id, s.states[e.id])
    requires s.states[e.id] == if e.Settle? then Running else Pending
    ensures StateTold(execute, trace + [e], e.id, Apply(gates, execute, s, e).states[e.id])
  {
    OneMoreEvent(trace, e);
  }

  lemma StatesStayTold(gates: seq<Gate>, maxActive: int, execute: string -> Status, trace: seq<Event>, s: Scheduler, e: Event)
    requires Agrees(gates, execute, trace, s) && Enabled(gates, maxActive, s, e)
    ensures var t := Apply(gates, execute, s, e);
            t.states.Keys == s.states.Keys && forall id | id in t.states :: StateTold(execute, trace + [e], id, t.states[id])
  {
    EnabledHasId(gates, maxActive, execute, trace, s, e);
    StateChanges(gates, execute, trace, s, e);
    var t := Apply(gates, execute, s, e);
    forall id | id in t.states ensures StateTold(execute, trace + [e], id, t.states[id]) {
      if id != e.id { StateStaysTold(execute, trace, e, id, s.states[id]); }
    }
  }

  lemma ResultsStayTold(gates: seq<Gate>, maxActive: int, execute: string -> Status, trace: seq<Event>, s: Scheduler, e: Event, id: string)
    requires Agrees(gates, execute, trace, s) && Enabled(gates, maxActive, s, e)
    ensures ResultTold(execute, trace + [e], Apply(gates, execute, s, e).results, id)
  {
    EnabledHasId(gates, maxActive, execute, trace, s, e);
    OneMoreEvent(trace, e);
    assert ResultTold(execute, trace, s.results, id);
    assert StateTold(execute, trace, e.id, s.states[e.id]);
  }

  lemma RunningStaysTold(gates: seq<Gate>, maxActive: int, execute: string -> Status, trace: seq<Event>, s: Scheduler, e: Event)
    requires Agrees(gates, execute, trace, s) && Enabled(gates, maxActive, s, e)
    ensures var t := Apply(gates, execute, s, e); Elements(t.running) == Active(trace + [e]) && Distinct(t.running)
  {
    EnabledHasId(gates, maxActive, execute, trace, s, e);
    assert StateTold(execute, trace, e.id, s.states[e.id]);
    ActiveAfter(trace, e);
    assert forall id :: id in s.running <==> id in Elements(s.running);
    match e
    case Start(id) =>
      assert id !in Active(trace);
      AppendDistinct(s.running, id);
    case Settle(id) => WithoutProperties(s.running, id);
    case Skip(_) =>
  }

  /** The machine's state after a run is what its events say. */
  lemma {:induction false} RunIsTold(gates: seq<Gate>, maxActive: int, execute: string -> Status, trace: seq<Event>)
    requires IsRun(gates, maxActive, execute, trace)
    ensures Agrees(gates, execute, trace, After(gates, execute, trace))
  {
    if trace == [] {
      assert Elements(Init(gates).running) == {} == Active([]);
    } else {
      var before, e := trace[..|trace| - 1], trace[|trace| - 1];
      RunIsTold(gates, maxActive, execute, before);
      assert trace == before + [e];
      StaysTold(gates, maxActive, execute, before, After(gates, execute, before), e);
    }
  }

  lemma StaysTold(gates: seq<Gate>, maxActive: int, execute: string -> Status, trace: seq<Event>, s: Scheduler, e: Event)
    requires Agrees(gates, execute, trace, s) && Enabled(gates, maxActive, s, e)
    ensures Agrees(gates, execute, trace + [e], Apply(gates, execute, s, e))
  {
    EnabledHasId(gates, maxActive, execute, trace, s, e);
    StatesStayTold(gates, maxActive, execute, trace, s, e);
    forall id ensures ResultTold(execute, trace + [e], Apply(gates, execute, s, e).results, id) {
      ResultsStayTold(gates, maxActive, execute, trace, s, e, id);
    }
    RunningStaysTold(gates, maxActive, execute, trace, s, e);
  }

  // ---- Which events may come next ----

  lemma ReadyIsTold(gates: seq<Gate>, execute: string -> Status, trace: seq<Event>, s: Scheduler, g: Gate)
    requires Agrees(gates, execute, trace, s) && g in gates && Resolves(gates, g)
    ensures IsPending(g, s.states) && PredecessorsReady(g, s.states) <==> MayStart(execute, trace, g)
    ensures IsPending(g, s.states) && Blocked(g, s.states) <==> MustSkip(execute, trace, g)
  {
    assert StateTold(execute, trace, g.id, s.states[g.id]);
    forall n | n in Predecessors(g)
      ensures n in s.states
      ensures s.states[n] == Settled(Passed) <==> HasPassed(execute, trace, n)
      ensures GateFailed(s.states, n) <==> HasFailed(execute, trace, n)
      ensures GateSettled(s.states, n) <==> IsOver(trace, n)
    {
      var h :| h in gates && h.id == n;
      assert StateTold(execute, trace, n, s.states[n]);
    }
    assert forall n | n in g.needs :: n in Predecessors(g);
    assert forall n | n in g.after :: n in Predecessors(g);
  }

  /** The first match of a search has this id exactly when it is the first gate of the list to match. */
  lemma FoundIsFirst(gates: seq<Gate>, found: Gate -> bool, test: Gate -> bool, id: string)
    requires DistinctIds(gates) && forall g | g in gates :: found(g) == test(g)
    ensures Find(gates, found).Some? && Find(gates, found).value.id == id <==> IsFirst(gates, test, id)
  {
    FindCongruence(gates, found, test);
    if Find(gates, test).Some? {
      var i := FindIsFirst(gates, test);
      if k: nat :| k < |gates| && gates[k].id == id && test(gates[k]) && forall j | 0 <= j < k :: !test(gates[j]) {
        assert k == i;
      }
    }
  }

  lemma FirstsAreTold(gates: seq<Gate>, execute: string -> Status, trace: seq<Event>, s: Scheduler, id: string)
    requires WellFormed(gates) && Agrees(gates, execute, trace, s)
    ensures FirstReady(gates, s.states).Some? && FirstReady(gates, s.states).value.id == id
            <==> IsFirst(gates, (g: Gate) => MayStart(execute, trace, g), id)
    ensures FirstBlocked(gates, s.states).Some? && FirstBlocked(gates, s.states).value.id == id
            <==> IsFirst(gates, (g: Gate) => MustSkip(execute, trace, g), id)
    ensures FirstReady(gates, s.states).None? <==> forall g | g in gates :: !MayStart(execute, trace, g)
  {
    forall g | g in gates
      ensures IsPending(g, s.states) && PredecessorsReady(g, s.states) <==> MayStart(execute, trace, g)
      ensures IsPending(g, s.states) && Blocked(g, s.states) <==> MustSkip(execute, trace, g)
    {
      ReadyIsTold(gates, execute, trace, s, g);
    }
    FoundIsFirst(gates, (g: Gate) => IsPending(g, s.states) && PredecessorsReady(g, s.states),
                 (g: Gate) => MayStart(execute, trace, g), id);
    FoundIsFirst(gates, (g: Gate) => IsPending(g, s.states) && Blocked(g, s.states), (g: Gate) => MustSkip(execute, trace, g), id);
  }

  lemma ActiveIsRunning(gates: seq<Gate>, execute: string -> Status, trace: seq<Event>, s: Scheduler, id: string)
    requires Agrees(gates, execute, trace, s)
    ensures |s.running| == |Active(trace)| && (s.running == [] <==> Active(trace) == {}) && (id in s.running <==> id in Active(trace))
  {
    DistinctLength(s.running);
    assert id in s.running <==> id in Elements(s.running);
    assert s.running == [] <==> Elements(s.running) == {} by {
      if s.running != [] { assert s.running[0] in Elements(s.running); }
    }
  }

  /** An event is enabled exactly when the events before it allow it. */
  lemma EnabledIsLegal(gates: seq<Gate>, maxActive: int, execute: string -> Status, trace: seq<Event>, s: Scheduler, e: Event)
    requires WellFormed(gates) && maxActive >= 1 && Agrees(gates, execute, trace, s)
    ensures Enabled(gates, maxActive, s, e) <==> Legal(gates, maxActive, execute, trace, e)
  {
    FirstsAreTold(gates, execute, trace, s, e.id);
    ActiveIsRunning(gates, execute, trace, s, e.id);
  }

  ghost predicate AllLegal(gates: seq<Gate>, maxActive: int, execute: string -> Status, trace: seq<Event>) {
    forall k {:trigger trace[k]} | 0 <= k < |trace| :: Legal(gates, maxActive, execute, trace[..k], trace[k])
  }

  lemma LegalStep(gates: seq<Gate>, maxActive: int, execute: string -> Status, before: seq<Event>, e: Event)
    ensures AllLegal(gates, maxActive, execute, before + [e])
            <==> AllLegal(gates, maxActive, execute, before) && Legal(gates, maxActive, execute, before, e)
  {
    var trace := before + [e];
    assert trace[|before|] == e && trace[..|before|] == before;
    forall k | 0 <= k < |before| ensures trace[..k] == before[..k] && trace[k] == before[k] { }
  }

  /** A list of events is a run exactly when each event is legal after those before it. */
  lemma {:induction false} RunsAreLegal(gates: seq<Gate>, maxActive: int, execute: string -> Status, trace: seq<Event>)
    requires WellFormed(gates) && maxActive >= 1
    ensures IsRun(gates, maxActive, execute, trace) <==> AllLegal(gates, maxActive, execute, trace)
  {
    if trace != [] {
      var before, e := trace[..|trace| - 1], trace[|trace| - 1];
      assert trace == before + [e];
      RunsAreLegal(gates, maxActive, execute, before);
      LegalStep(gates, maxActive, execute, before, e);
      if IsRun(gates, maxActive, execute, before) {
        RunIsTold(gates, maxActive, execute, before);
        EnabledIsLegal(gates, maxActive, execute, before, After(gates, execute, before), e);
      }
    }
  }

  lemma GateIsTold(gates: seq<Gate>, execute: string -> Status, trace: seq<Event>, s: Scheduler, id: string)
    requires Agrees(gates, execute, trace, s) && id in s.states
    ensures s.states[id].Settled? <==> IsOver(trace, id)
    ensures s.states[id].Running? <==> id in s.running
  {
    assert StateTold(execute, trace, id, s.states[id]);
    assert id in s.running <==> id in Elements(s.running);
    assert Start(id) in trace ==> Start(id).id == id;
  }

  /** A run is finished exactly when every gate is over. */
  lemma FinishedIsTold(gates: seq<Gate>, maxActive: int, execute: string -> Status, trace: seq<Event>)
    requires IsRun(gates, maxActive, execute, trace)
    ensures Finished(gates, After(gates, execute, trace)) <==> forall g | g in gates :: IsOver(trace, g.id)
  {
    RunIsTold(gates, maxActive, execute, trace);
    var s := After(gates, execute, trace);
    forall g | g in gates
      ensures g.id in s.states && (s.states[g.id].Settled? <==> IsOver(trace, g.id)) && (s.states[g.id].Running? <==> g.id in s.running)
    {
      GateIsTold(gates, execute, trace, s, g.id);
    }
    RunningAreGates(gates, execute, trace, s);
    assert s.running == [] || s.running[0] in s.running;
  }

  lemma RunningAreGates(gates: seq<Gate>, execute: string -> Status, trace: seq<Event>, s: Scheduler)
    requires Agrees(gates, execute, trace, s)
    ensures forall id | id in s.running :: exists g :: g in gates && g.id == id
  {
    forall id | id in s.running ensures exists g :: g in gates && g.id == id {
      assert id in Elements(s.running);
      assert id in IdSet(gates);
    }
  }

  // ---- What a result says ----

  /** A skip that names, in order, the needs that have failed, at least one. */
  ghost predicate NamesFailures(execute: string -> Status, trace: seq<Event>, g: Gate, r: GateResult) {
    r.DependencyFailed? && r.failedDeps != [] && Picks(g.needs, (n: string) => HasFailed(execute, trace, n), r.failedDeps)
  }

  /** What the gate's result should be: its own outcome, or the failures at the moment it was skipped. */
  ghost predicate Reports(execute: string -> Status, trace: seq<Event>, g: Gate, r: GateResult) {
    if Settle(g.id) in trace then r == Executed(execute(g.id))
    else exists k: nat {:trigger trace[k]} :: k < |trace| && trace[k] == Skip(g.id) && NamesFailures(execute, trace[..k], g, r)
  }

  lemma FailedDepsAreTold(gates: seq<Gate>, execute: string -> Status, trace: seq<Event>, s: Scheduler, g: Gate)
    requires Agrees(gates, execute, trace, s) && g in gates && Resolves(gates, g) && Blocked(g, s.states)
    ensures FailedDeps(g, s.states) != []
    ensures Picks(g.needs, (n: string) => HasFailed(execute, trace, n), FailedDeps(g, s.states))
  {
    var failed, test := (n: string) => GateFailed(s.states, n), (n: string) => HasFailed(execute, trace, n);
    forall n | n in g.needs ensures failed(n) == test(n) {
      assert n in Predecessors(g);
      var h :| h in gates && h.id == n;
      assert StateTold(execute, trace, n, s.states[n]);
    }
    FilterCongruence(g.needs, failed, test);
    FilterPicks(g.needs, test);
    var n :| n in g.needs && GateFailed(s.states, n);
    assert failed(n) && n in Filter(g.needs, failed);
  }

  lemma SkipNamesNeeds(
    gates: seq<Gate>, maxActive: int, execute: string -> Status, trace: seq<Event>, s: Scheduler, g: Gate)
    requires WellFormed(gates) && g in gates && Agrees(gates, execute, trace, s) && Enabled(gates, maxActive, s, Skip(g.id))
    ensures NamesFailures(execute, trace, g, Apply(gates, execute, s, Skip(g.id)).results[g.id])
  {
    var blocked := FirstBlocked(gates, s.states).value;
    ByIdFinds(gates, g);
    ByIdFinds(gates, blocked);
    FailedDepsAreTold(gates, execute, trace, s, g);
  }

  /** Every result of a run is what the events say it should be. */
  lemma {:induction false} ResultsAreTold(
    gates: seq<Gate>, maxActive: int, execute: string -> Status, trace: seq<Event>, g: Gate)
    requires WellFormed(gates) && g in gates && IsRun(gates, maxActive, execute, trace) && IsOver(trace, g.id)
    ensures var results := After(gates, execute, trace).results;
            g.id in results && Reports(execute, trace, g, results[g.id])
  {
    RunIsTold(gates, maxActive, execute, trace);
    assert ResultTold(execute, trace, After(gates, execute, trace).results, g.id);
    if Settle(g.id) !in trace {
      SkipIsTold(gates, maxActive, execute, trace, g);
    }
  }

  lemma {:induction false} SkipIsTold(
    gates: seq<Gate>, maxActive: int, execute: string -> Status, trace: seq<Event>, g: Gate)
    requires WellFormed(gates) && g in gates && IsRun(gates, maxActive, execute, trace)
    requires Skip(g.id) in trace && Settle(g.id) !in trace
    ensures var results := After(gates, execute, trace).results;
            g.id in results && Reports(execute, trace, g, results[g.id])
  {
    var before, e := trace[..|trace| - 1], trace[|trace| - 1];
    assert trace == before + [e];
    OneMoreEvent(before, e);
    RunIsTold(gates, maxActive, execute, before);
    if e == Skip(g.id) {
      SkipReports(gates, maxActive, execute, before, After(gates, execute, before), g);
    } else {
      SkipIsTold(gates, maxActive, execute, before, g);
      OtherEventsKeep(gates, maxActive, execute, before, After(gates, execute, before), e, g);
      ReportsStay(execute, before, e, g, After(gates, execute, before).results[g.id]);
    }
  }

  lemma SkipReports(
    gates: seq<Gate>, maxActive: int, execute: string -> Status, before: seq<Event>, s: Scheduler, g: Gate)
    requires WellFormed(gates) && g in gates && Agrees(gates, execute, before, s) && Enabled(gates, maxActive, s, Skip(g.id))
    requires Settle(g.id) !in before
    ensures Reports(execute, before + [Skip(g.id)], g, Apply(gates, execute, s, Skip(g.id)).results[g.id])
  {
    var trace := before + [Skip(g.id)];
    SkipNamesNeeds(gates, maxActive, execute, before, s, g);
    assert trace[..|before|] == before && trace[|before|] == Skip(g.id);
  }

  lemma OtherEventsKeep(
    gates: seq<Gate>, maxActive: int, execute: string -> Status, trace: seq<Event>, s: Scheduler, e: Event, g: Gate)
    requires g in gates && Agrees(gates, execute, trace, s) && Enabled(gates, maxActive, s, e)
    requires Skip(g.id) in trace && g.id in s.results
    ensures g.id in Apply(gates, execute, s, e).results && Apply(gates, execute, s, e).results[g.id] == s.results[g.id]
  {
    EnabledHasId(gates, maxActive, execute, trace, s, e);
    assert StateTold(execute, trace, g.id, s.states[g.id]);
  }

  lemma ReportsStay(execute: string -> Status, trace: seq<Event>, e: Event, g: Gate, r: GateResult)
    requires Settle(g.id) !in trace + [e] && Reports(execute, trace, g, r)
    ensures Reports(execute, trace + [e], g, r)
  {
    var longer := trace + [e];
    OneMoreEvent(trace, e);
    var k: nat :| k < |trace| && trace[k] == Skip(g.id) && NamesFailures(execute, trace[..k], g, r);
    assert longer[..k] == trace[..k] && longer[k] == Skip(g.id);
  }
}
