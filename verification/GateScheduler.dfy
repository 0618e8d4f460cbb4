/**
 * The bounded scheduler of scripts/run-gates.ts as a state machine. A run may
 * settle its running gates in any order; `Sequential` is the one-at-a-time
 * evaluation every such run is compared with.
 */
module GateScheduler {
  import opened Prelude
  import opened GateGraph

  datatype Status = Passed | Failed | Skipped

  datatype GateState = Pending | Running | Settled(status: Status)

  /** A result is either what the executor reported or a skip naming the failed needs. */
  datatype GateResult = Executed(reported: Status) | DependencyFailed(failedDeps: seq<string>)

  function StatusOf(r: GateResult): Status {
    match r
    case Executed(status) => status
    case DependencyFailed(_) => Skipped
  }

  type States = map<string, GateState>
  type Results = map<string, GateResult>

  datatype Scheduler = Scheduler(states: States, running: seq<string>, results: Results)

  datatype Event = Start(id: string) | Settle(id: string) | Skip(id: string)

  // ---- The predicates of the loop ----

  predicate GateSettled(states: States, id: string) {
    id in states && states[id].Settled?
  }

  predicate GateFailed(states: States, id: string) {
    id in states && states[id] in {Settled(Failed), Settled(Skipped)}
  }

  predicate PredecessorsReady(g: Gate, states: States) {
    && (forall id | id in g.needs :: id in states && states[id] == Settled(Passed))
    && (forall id | id in g.after :: GateSettled(states, id))
  }

  predicate IsPending(g: Gate, states: States) {
    g.id in states && states[g.id] == Pending
  }

  function FirstReady(gates: seq<Gate>, states: States): (r: Option<Gate>)
    ensures r.Some? ==> r.value in gates && IsPending(r.value, states) && PredecessorsReady(r.value, states)
  {
    Find(gates, (g: Gate) => IsPending(g, states) && PredecessorsReady(g, states))
  }

  predicate Blocked(g: Gate, states: States) {
    exists id | id in g.needs :: GateFailed(states, id)
  }

  function FirstBlocked(gates: seq<Gate>, states: States): (r: Option<Gate>)
    ensures r.Some? ==> r.value in gates && IsPending(r.value, states) && Blocked(r.value, states)
  {
    Find(gates, (g: Gate) => IsPending(g, states) && Blocked(g, states))
  }

  function FailedDeps(g: Gate, states: States): seq<string> {
    Filter(g.needs, (id: string) => GateFailed(states, id))
  }

  // ---- Steps and runs ----

  function Init(gates: seq<Gate>): Scheduler {
    Scheduler(map id | id in IdSet(gates) :: Pending, [], map[])
  }

  /** `running.splice(running.indexOf(item), 1)` */
  function Without(running: seq<string>, id: string): seq<string> {
    if running == [] then []
    else if running[0] == id then running[1..]
    else [running[0]] + Without(running[1..], id)
  }

  ghost predicate Enabled(gates: seq<Gate>, maxActive: int, s: Scheduler, e: Event) {
    var ready := FirstReady(gates, s.states);
    match e
    case Start(id) => |s.running| < maxActive && ready.Some? && ready.value.id == id
    case Settle(id) => id in s.running && (|s.running| >= maxActive || ready.None?)
    case Skip(id) =>
      var blocked := FirstBlocked(gates, s.states);
      |s.running| == 0 < maxActive && ready.None? && blocked.Some? && blocked.value.id == id
  }

  function Apply(gates: seq<Gate>, execute: string -> Status, s: Scheduler, e: Event): Scheduler {
    match e
    case Start(id) =>
      s.(states := s.states[id := Running], running := s.running + [id])
    case Settle(id) =>
      Scheduler(s.states[id := Settled(execute(id))], Without(s.running, id), RunOne(execute, s.results, id))
    case Skip(id) =>
      var failedDeps := if id in ById(gates) then FailedDeps(ById(gates)[id], s.states) else [];
      s.(states := s.states[id := Settled(Skipped)], results := Record(s.results, id, DependencyFailed(failedDeps)))
  }

  function After(gates: seq<Gate>, execute: string -> Status, trace: seq<Event>): Scheduler {
    if trace == [] then Init(gates)
    else Apply(gates, execute, After(gates, execute, trace[..|trace| - 1]), trace[|trace| - 1])
  }

  /** Every event was enabled when it happened. */
  ghost predicate IsRun(gates: seq<Gate>, maxActive: int, execute: string -> Status, trace: seq<Event>) {
    trace == [] || (
      && IsRun(gates, maxActive, execute, trace[..|trace| - 1])
      && Enabled(gates, maxActive, After(gates, execute, trace[..|trace| - 1]), trace[|trace| - 1]))
  }

  /** No gate is pending or running any more. */
  ghost predicate Finished(gates: seq<Gate>, s: Scheduler) {
    s.running == [] && forall g | g in gates :: !IsPending(g, s.states)
  }

  // ---- The sequential reference evaluation ----

  predicate ReadyIn(g: Gate, results: Results) {
    && (forall id | id in g.needs :: id in results && StatusOf(results[id]) == Passed)
    && (forall id | id in g.after :: id in results)
  }

  predicate FailedIn(results: Results, id: string) {
    id in results && StatusOf(results[id]) != Passed
  }

  predicate BlockedIn(g: Gate, results: Results) {
    exists id | id in g.needs :: FailedIn(results, id)
  }

  function NextReady(gates: seq<Gate>, results: Results): (r: Option<Gate>)
    ensures r.Some? ==> r.value in gates && r.value.id in Remaining(gates, results) && ReadyIn(r.value, results)
    ensures r.None? ==> forall g | g in gates && g.id !in results :: !ReadyIn(g, results)
  {
    Find(gates, (g: Gate) => g.id !in results && ReadyIn(g, results))
  }

  function NextBlocked(gates: seq<Gate>, results: Results): (r: Option<Gate>)
    ensures r.Some? ==> r.value in gates && r.value.id in Remaining(gates, results) && BlockedIn(r.value, results)
    ensures r.None? ==> forall g | g in gates && g.id !in results :: !BlockedIn(g, results)
  {
    Find(gates, (g: Gate) => g.id !in results && BlockedIn(g, results))
  }

  /** The gates without a result. */
  function Remaining(gates: seq<Gate>, results: Results): set<string> {
    IdSet(gates) - results.Keys
  }

  function Record(results: Results, id: string, result: GateResult): (r: Results)
    ensures r.Keys == results.Keys + {id}
  {
    results[id := result]
  }

  function RunOne(execute: string -> Status, results: Results, id: string): Results {
    Record(results, id, Executed(execute(id)))
  }

  function FailedNeeds(g: Gate, results: Results): seq<string> {
    Filter(g.needs, (id: string) => FailedIn(results, id))
  }

  /**
   * Run one gate at a time: execute the first ready gate, and skip the first
   * gate with a failed need only when nothing is ready.
   */
  function Sequential(gates: seq<Gate>, execute: string -> Status, results: Results): Results
    decreases Remaining(gates, results)
  {
    var ready := NextReady(gates, results);
    if ready.Some? then
      var next := RunOne(execute, results, ready.value.id);
      assert ready.value.id !in Remaining(gates, next);
      Sequential(gates, execute, next)
    else
      var blocked := NextBlocked(gates, results);
      if blocked.Some? then
        var next := Record(results, blocked.value.id, DependencyFailed(FailedNeeds(blocked.value, results)));
        assert blocked.value.id !in Remaining(gates, next);
        Sequential(gates, execute, next)
      else
        results
  }

  lemma ReadyStaysReady(execute: string -> Status, results: Results, g: Gate, id: string)
    requires ReadyIn(g, results) && id !in results
    ensures ReadyIn(g, RunOne(execute, results, id))
  {
  }

  lemma RunOneCommutes(execute: string -> Status, results: Results, a: string, b: string)
    ensures RunOne(execute, RunOne(execute, results, a), b) == RunOne(execute, RunOne(execute, results, b), a)
  {
    var x, y := RunOne(execute, RunOne(execute, results, a), b), RunOne(execute, RunOne(execute, results, b), a);
    assert x.Keys == y.Keys;
  }

  /** The reference evaluation may run any ready gate next without changing its outcome. */
  lemma {:induction false} ReadyGatesCommute(gates: seq<Gate>, execute: string -> Status, results: Results, g: Gate)
    requires g in gates && g.id !in results && ReadyIn(g, results)
    ensures Sequential(gates, execute, results) == Sequential(gates, execute, RunOne(execute, results, g.id))
    decreases Remaining(gates, results)
  {
    var h := NextReady(gates, results).value;
    if h.id != g.id {
      var withH, withG := RunOne(execute, results, h.id), RunOne(execute, results, g.id);
      ReadyStaysReady(execute, results, g, h.id);
      ReadyStaysReady(execute, results, h, g.id);
      assert h.id !in Remaining(gates, withH);
      assert g.id in Remaining(gates, results) && g.id !in Remaining(gates, withG);
      ReadyGatesCommute(gates, execute, withH, g);
      ReadyGatesCommute(gates, execute, withG, h);
      RunOneCommutes(execute, results, g.id, h.id);
    }
  }

  // ---- What every reachable state keeps ----

  /** The state the other two collections give a gate. */
  function StateOf(s: Scheduler, id: string): GateState {
    if id in s.results then Settled(StatusOf(s.results[id]))
    else if id in s.running then Running
    else Pending
  }

  /** The three collections agree, and every running gate was entitled to start. */
  ghost predicate Consistent(gates: seq<Gate>, s: Scheduler) {
    && s.states.Keys == IdSet(gates)
    && s.results.Keys <= IdSet(gates)
    && Distinct(s.running)
    && (forall id | id in s.running :: id in IdSet(gates) && id !in s.results)
    && (forall id | id in s.states :: s.states[id] == StateOf(s, id))
    && (forall g | g in gates && g.id in s.running :: ReadyIn(g, s.results))
  }

  ghost predicate Invariant(gates: seq<Gate>, maxActive: int, execute: string -> Status, s: Scheduler) {
    && Consistent(gates, s)
    && |s.running| <= maxActive
    && Sequential(gates, execute, s.results) == Sequential(gates, execute, map[])
  }

  lemma {:induction false} WithoutProperties(running: seq<string>, id: string)
    requires Distinct(running) && id in running
    ensures Distinct(Without(running, id)) && |Without(running, id)| == |running| - 1
    ensures forall x :: x in Without(running, id) <==> x in running && x != id
  {
    if running[0] != id {
      WithoutProperties(running[1..], id);
      var rest := Without(running[1..], id);
      assert running == [running[0]] + running[1..];
      forall i | 0 <= i < |rest| ensures rest[i] != running[0] {
        assert rest[i] in rest;
      }
    }
  }

  /** In a consistent state, readiness over states is readiness over results. */
  lemma ReadinessAgrees(gates: seq<Gate>, s: Scheduler, g: Gate)
    requires Consistent(gates, s)
    ensures PredecessorsReady(g, s.states) <==> ReadyIn(g, s.results)
    ensures Blocked(g, s.states) <==> BlockedIn(g, s.results)
    ensures FailedDeps(g, s.states) == FailedNeeds(g, s.results)
  {
    forall id ensures GateFailed(s.states, id) <==> FailedIn(s.results, id) {}
    FilterCongruence(g.needs, (id: string) => GateFailed(s.states, id), (id: string) => FailedIn(s.results, id));
  }

  lemma StartKeepsConsistent(gates: seq<Gate>, s: Scheduler, ready: Gate)
    requires Consistent(gates, s) && DistinctIds(gates) && ready in gates && ReadyIn(ready, s.results)
    requires ready.id !in s.running && ready.id !in s.results && ready.id in IdSet(gates)
    ensures Consistent(gates, s.(states := s.states[ready.id := Running], running := s.running + [ready.id]))
  {
    var running := s.running + [ready.id];
    AppendDistinct(s.running, ready.id);
    forall g | g in gates && g.id in running ensures ReadyIn(g, s.results) {
      if g.id == ready.id {
        ByIdFinds(gates, g);
        ByIdFinds(gates, ready);
      }
    }
  }

  lemma StartKeeps(gates: seq<Gate>, maxActive: int, execute: string -> Status, s: Scheduler, id: string)
    requires Invariant(gates, maxActive, execute, s) && Enabled(gates, maxActive, s, Start(id)) && DistinctIds(gates)
    ensures Invariant(gates, maxActive, execute, Apply(gates, execute, s, Start(id)))
  {
    var ready := FirstReady(gates, s.states).value;
    ReadinessAgrees(gates, s, ready);
    assert s.states[id] == StateOf(s, id);
    StartKeepsConsistent(gates, s, ready);
  }

  lemma SettleKeepsConsistent(gates: seq<Gate>, execute: string -> Status, s: Scheduler, id: string)
    requires Consistent(gates, s) && id in s.running
    ensures Consistent(gates, Apply(gates, execute, s, Settle(id)))
    ensures |Without(s.running, id)| == |s.running| - 1
  {
    WithoutProperties(s.running, id);
    var t := Apply(gates, execute, s, Settle(id));
    assert t.running == Without(s.running, id) && t.results == RunOne(execute, s.results, id);
    forall x | x in t.states ensures t.states[x] == StateOf(t, x) {}
    forall g | g in gates && g.id in t.running ensures ReadyIn(g, t.results) {
      ReadyStaysReady(execute, s.results, g, id);
    }
  }

  lemma SettleKeeps(gates: seq<Gate>, maxActive: int, execute: string -> Status, s: Scheduler, id: string)
    requires Invariant(gates, maxActive, execute, s) && id in s.running
    ensures Invariant(gates, maxActive, execute, Apply(gates, execute, s, Settle(id)))
  {
    SettleKeepsConsistent(gates, execute, s, id);
    assert id in IdSet(gates);
    var g :| g in gates && g.id == id;
    ReadyGatesCommute(gates, execute, s.results, g);
  }

  /** With nothing running, the scheduler and the reference make the same choices. */
  lemma QuiescentChoicesAgree(gates: seq<Gate>, s: Scheduler)
    requires Consistent(gates, s) && s.running == []
    ensures FirstReady(gates, s.states) == NextReady(gates, s.results)
    ensures FirstBlocked(gates, s.states) == NextBlocked(gates, s.results)
  {
    forall g | g in gates
      ensures (IsPending(g, s.states) && PredecessorsReady(g, s.states)) == (g.id !in s.results && ReadyIn(g, s.results))
      ensures (IsPending(g, s.states) && Blocked(g, s.states)) == (g.id !in s.results && BlockedIn(g, s.results))
    {
      assert g.id in IdSet(gates);
      assert s.states[g.id] == StateOf(s, g.id);
      ReadinessAgrees(gates, s, g);
    }
    FindCongruence(gates, (g: Gate) => IsPending(g, s.states) && PredecessorsReady(g, s.states),
                   (g: Gate) => g.id !in s.results && ReadyIn(g, s.results));
    FindCongruence(gates, (g: Gate) => IsPending(g, s.states) && Blocked(g, s.states),
                   (g: Gate) => g.id !in s.results && BlockedIn(g, s.results));
  }

  lemma SkipKeepsConsistent(gates: seq<Gate>, execute: string -> Status, s: Scheduler, id: string)
    requires Consistent(gates, s) && s.running == [] && id in IdSet(gates) - s.results.Keys
    ensures Consistent(gates, Apply(gates, execute, s, Skip(id)))
  {
    var t := Apply(gates, execute, s, Skip(id));
    forall x | x in t.states ensures t.states[x] == StateOf(t, x) {}
  }

  /** A skip of the scheduler records what the reference's skip records. */
  lemma SkipRecords(gates: seq<Gate>, execute: string -> Status, s: Scheduler, blocked: Gate)
    requires Consistent(gates, s) && DistinctIds(gates) && blocked in gates
    ensures Apply(gates, execute, s, Skip(blocked.id)).results
            == Record(s.results, blocked.id, DependencyFailed(FailedNeeds(blocked, s.results)))
  {
    ByIdFinds(gates, blocked);
    ReadinessAgrees(gates, s, blocked);
  }

  lemma SkipKeeps(gates: seq<Gate>, maxActive: int, execute: string -> Status, s: Scheduler, id: string)
    requires Invariant(gates, maxActive, execute, s) && Enabled(gates, maxActive, s, Skip(id)) && DistinctIds(gates)
    ensures Invariant(gates, maxActive, execute, Apply(gates, execute, s, Skip(id)))
  {
    var blocked := FirstBlocked(gates, s.states).value;
    assert s.states[id] == StateOf(s, id);
    SkipKeepsConsistent(gates, execute, s, id);
    SkipRecords(gates, execute, s, blocked);
    QuiescentChoicesAgree(gates, s);
  }

  lemma StepKeeps(gates: seq<Gate>, maxActive: int, execute: string -> Status, s: Scheduler, e: Event)
    requires Invariant(gates, maxActive, execute, s) && Enabled(gates, maxActive, s, e) && DistinctIds(gates)
    ensures Invariant(gates, maxActive, execute, Apply(gates, execute, s, e))
  {
    match e
    case Start(id) => StartKeeps(gates, maxActive, execute, s, id);
    case Settle(id) => SettleKeeps(gates, maxActive, execute, s, id);
    case Skip(id) => SkipKeeps(gates, maxActive, execute, s, id);
  }

  /** Every state of every run satisfies the invariant. */
  lemma {:induction false} ReachableStates(gates: seq<Gate>, maxActive: int, execute: string -> Status, trace: seq<Event>)
    requires WellFormed(gates) && maxActive >= 1
    requires IsRun(gates, maxActive, execute, trace)
    ensures Invariant(gates, maxActive, execute, After(gates, execute, trace))
  {
    if trace != [] {
      var before := trace[..|trace| - 1];
      ReachableStates(gates, maxActive, execute, before);
      StepKeeps(gates, maxActive, execute, After(gates, execute, before), trace[|trace| - 1]);
    }
  }
}
