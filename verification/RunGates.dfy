/**
 * `runGates` of scripts/run-gates.ts: the loop that validates an aggregate and
 * runs it. The choice of which running gate settles next is left open, and the
 * emitted events are returned so that every execution is a run of the machine.
 */
module RunGates {
  import opened Prelude
  import opened Digraph
  import opened GateGraph
  import opened GateScheduler
  import opened GateVerdicts
  import opened GateTraces

  /** The loop's variables are the machine's state after the events so far. */
  ghost predicate Reached(
    gates: seq<Gate>, maxActive: int, execute: string -> Status, trace: seq<Event>, s: Scheduler)
  {
    IsRun(gates, maxActive, execute, trace) && After(gates, execute, trace) == s
  }

  lemma Advance(
    gates: seq<Gate>, maxActive: int, execute: string -> Status, trace: seq<Event>, s: Scheduler, e: Event)
    requires WellFormed(gates) && maxActive >= 1
    requires Reached(gates, maxActive, execute, trace, s) && Enabled(gates, maxActive, s, e)
    ensures Reached(gates, maxActive, execute, trace + [e], Apply(gates, execute, s, e))
    ensures Measure(Apply(gates, execute, s, e)) < Measure(s)
  {
    assert (trace + [e])[..|trace|] == trace;
    ReachableIsConsistent(gates, maxActive, execute, trace);
    StepDecreases(gates, maxActive, execute, s, e);
  }

  lemma SkipApplied(gates: seq<Gate>, execute: string -> Status, s: Scheduler, blocked: Gate)
    requires DistinctIds(gates) && blocked in gates
    ensures Apply(gates, execute, s, Skip(blocked.id))
            == Scheduler(s.states[blocked.id := Settled(Skipped)], s.running,
                         s.results[blocked.id := DependencyFailed(FailedDeps(blocked, s.states))])
  {
    ByIdFinds(gates, blocked);
  }

  /** The "stalled" error is unreachable: with nothing running, a pending gate leaves one blocked. */
  lemma NoStall(gates: seq<Gate>, maxActive: int, execute: string -> Status, trace: seq<Event>, s: Scheduler, pending: Gate)
    requires WellFormed(gates) && maxActive >= 1
    requires Reached(gates, maxActive, execute, trace, s) && s.running == [] && FirstReady(gates, s.states).None?
    requires pending in gates && IsPending(pending, s.states)
    ensures FirstBlocked(gates, s.states).Some?
  {
    AcyclicIffRanked(GraphOf(ById(gates)));
    var rank :| TopologicalRank(GraphOf(ById(gates)), rank);
    ReachableIsConsistent(gates, maxActive, execute, trace);
    if FirstBlocked(gates, s.states).None? {
      SchedulerNeverStalls(gates, rank, s);
      assert false;
    }
  }

  /** The "missing result" error is unreachable: a finished run has every result. */
  lemma NothingMissing(gates: seq<Gate>, maxActive: int, execute: string -> Status, trace: seq<Event>, s: Scheduler)
    requires WellFormed(gates) && maxActive >= 1
    requires Reached(gates, maxActive, execute, trace, s) && Finished(gates, s)
    ensures s.results == Sequential(gates, execute, map[])
    ensures forall g | g in gates :: g.id in s.results
  {
    FinishedRunsAgree(gates, maxActive, execute, trace);
    SequentialIsDenoted(gates, execute);
  }

  /** The inner loop: start ready gates in list order until the pool is full or none is ready. */
  method StartReadyGates(gates: seq<Gate>, maxActive: int, execute: string -> Status, s: Scheduler, trace: seq<Event>)
    returns (t: Scheduler, extended: seq<Event>, madeProgress: bool)
    requires WellFormed(gates) && maxActive >= 1 && Reached(gates, maxActive, execute, trace, s)
    ensures Reached(gates, maxActive, execute, extended, t)
    ensures |t.running| >= maxActive || FirstReady(gates, t.states).None?
    ensures if madeProgress then Measure(t) < Measure(s) else t == s
  {
    t, extended, madeProgress := s, trace, false;
    while |t.running| < maxActive
      invariant Reached(gates, maxActive, execute, extended, t)
      invariant if madeProgress then Measure(t) < Measure(s) else t == s
      decreases maxActive - |t.running|
    {
      var ready := FirstReady(gates, t.states);
      if ready.None? {
        break;
      }
      var id := ready.value.id;
      Advance(gates, maxActive, execute, extended, t, Start(id));
      t := t.(states := t.states[id := Running], running := t.running + [id]);
      extended := extended + [Start(id)];
      madeProgress := true;
    }
  }

  /** Record the first pending gate with a failed need as skipped. */
  method SkipBlockedGate(gates: seq<Gate>, maxActive: int, execute: string -> Status, s: Scheduler, trace: seq<Event>, pending: Gate)
    returns (t: Scheduler, extended: seq<Event>)
    requires WellFormed(gates) && maxActive >= 1
    requires Reached(gates, maxActive, execute, trace, s) && s.running == [] && FirstReady(gates, s.states).None?
    requires pending in gates && IsPending(pending, s.states)
    ensures Reached(gates, maxActive, execute, extended, t) && Measure(t) < Measure(s)
  {
    var blocked := FirstBlocked(gates, s.states);
    NoStall(gates, maxActive, execute, trace, s, pending);
    if blocked.None? {
      assert false;
    }
    var gate := blocked.value;
    Advance(gates, maxActive, execute, trace, s, Skip(gate.id));
    SkipApplied(gates, execute, s, gate);
    t := s.(states := s.states[gate.id := Settled(Skipped)],
            results := s.results[gate.id := DependencyFailed(FailedDeps(gate, s.states))]);
    extended := trace + [Skip(gate.id)];
  }

  /** Wait for whichever running gate settles first. */
  method SettleAnyGate(gates: seq<Gate>, maxActive: int, execute: string -> Status, s: Scheduler, trace: seq<Event>)
    returns (t: Scheduler, extended: seq<Event>)
    requires WellFormed(gates) && maxActive >= 1 && Reached(gates, maxActive, execute, trace, s)
    requires s.running != [] && (|s.running| >= maxActive || FirstReady(gates, s.states).None?)
    ensures Reached(gates, maxActive, execute, extended, t) && Measure(t) < Measure(s)
  {
    assert s.running[0] in s.running;
    var item :| item in s.running;
    Advance(gates, maxActive, execute, trace, s, Settle(item));
    var status := execute(item);
    t := Scheduler(s.states[item := Settled(status)], Without(s.running, item), s.results[item := Executed(status)]);
    extended := trace + [Settle(item)];
  }

  method RunGates(gates: seq<Gate>, maxActive: int, execute: string -> Status)
    returns (outcome: Result<seq<GateResult>, GraphError>, trace: seq<Event>)
    ensures outcome.Ok? <==> WellFormed(gates) && 1 <= maxActive <= MAX_SAFE_INTEGER
    ensures outcome.Err? ==> trace == []
    ensures outcome.Err? ==>
              if WellFormed(gates) then outcome.error == BadConcurrency(maxActive) else Explains(gates, outcome.error)
    ensures outcome.Ok? ==> IsRun(gates, maxActive, execute, trace) && Finished(gates, After(gates, execute, trace))
    ensures outcome.Ok? ==> forall g | g in gates :: g.id in Sequential(gates, execute, map[])
    ensures outcome.Ok? ==> outcome.value == InOrder(gates, Sequential(gates, execute, map[]))
    ensures outcome.Ok? ==> AllLegal(gates, maxActive, execute, trace) && forall g | g in gates :: IsOver(trace, g.id)
    ensures outcome.Ok? ==> |outcome.value| == |gates|
    ensures outcome.Ok? ==> forall i | 0 <= i < |gates| :: Reports(execute, trace, gates[i], outcome.value[i])
  {
    trace := [];
    var error := ValidateGateGraph(gates);
    if error.Some? {
      return Err(error.value), [];
    }
    if !(1 <= maxActive <= MAX_SAFE_INTEGER) {
      return Err(BadConcurrency(maxActive)), [];
    }
    var s := Scheduler(map id | id in IdSet(gates) :: Pending, [], map[]);
    while true
      invariant Reached(gates, maxActive, execute, trace, s)
      decreases Measure(s)
    {
      ghost var before := Measure(s);
      var madeProgress: bool;
      s, trace, madeProgress := StartReadyGates(gates, maxActive, execute, s, trace);
      if |s.running| == 0 {
        var pending := Find(gates, (g: Gate) => IsPending(g, s.states));
        if pending.None? {
          break;
        }
        s, trace := SkipBlockedGate(gates, maxActive, execute, s, trace, pending.value);
        continue;
      }
      if !madeProgress {
        s, trace := SettleAnyGate(gates, maxActive, execute, s, trace);
      }
    }
    NothingMissing(gates, maxActive, execute, trace, s);
    var collected := CollectResults(gates, s.results);
    OutcomeIsTold(gates, maxActive, execute, trace, s, collected);
    return Ok(collected), trace;
  }

  /** The collected results are what the events say, in list order. */
  lemma OutcomeIsTold(
    gates: seq<Gate>, maxActive: int, execute: string -> Status, trace: seq<Event>, s: Scheduler, collected: seq<GateResult>)
    requires WellFormed(gates) && maxActive >= 1
    requires Reached(gates, maxActive, execute, trace, s) && Finished(gates, s)
    requires forall g | g in gates :: g.id in s.results
    requires collected == InOrder(gates, s.results)
    ensures AllLegal(gates, maxActive, execute, trace) && forall g | g in gates :: IsOver(trace, g.id)
    ensures |collected| == |gates| && forall i | 0 <= i < |gates| :: Reports(execute, trace, gates[i], collected[i])
  {
    RunsAreLegal(gates, maxActive, execute, trace);
    FinishedIsTold(gates, maxActive, execute, trace);
    forall i | 0 <= i < |gates| ensures Reports(execute, trace, gates[i], collected[i]) {
      ResultsAreTold(gates, maxActive, execute, trace, gates[i]);
      assert collected[i] == s.results[gates[i].id];
    }
  }

  method CollectResults(gates: seq<Gate>, results: Results) returns (collected: seq<GateResult>)
    requires forall g | g in gates :: g.id in results
    ensures collected == InOrder(gates, results)
  {
    collected := [];
    for i := 0 to |gates|
      invariant collected == InOrder(gates, results)[..i]
    {
      collected := collected + [results[gates[i].id]];
    }
  }
}
