/**
 * What the runs of the gate scheduler have in common: they never stall, they
 * are finite, and they all return the verdicts the graph denotes.
 */
module GateVerdicts {
  import opened Prelude
  import opened Digraph
  import opened GateGraph
  import opened GateScheduler

  // ---- Progress and termination ----

  /** If some gate has no result then one is ready or one has a failed need. */
  lemma {:induction false} ReferenceNeverStalls(gates: seq<Gate>, rank: map<string, nat>, results: Results, g: Gate)
    requires WellFormed(gates) && TopologicalRank(GraphOf(ById(gates)), rank)
    requires g in gates && g.id !in results
    ensures NextReady(gates, results).Some? || NextBlocked(gates, results).Some?
    decreases rank[g.id]
  {
    ByIdFinds(gates, g);
    assert Resolves(gates, g);
    if p :| p in Predecessors(g) && p !in results {
      assert Edge(GraphOf(ById(gates)), g.id, p);
      ReferenceNeverStalls(gates, rank, results, ById(gates)[p]);
    } else if n :| n in g.needs && StatusOf(results[n]) != Passed {
      assert FailedIn(results, n);
      assert BlockedIn(g, results);
    } else {
      assert forall p | p in g.needs :: p in Predecessors(g);
      assert forall p | p in g.after :: p in Predecessors(g);
      assert ReadyIn(g, results);
    }
  }

  lemma SomethingCanHappen(gates: seq<Gate>, rank: map<string, nat>, results: Results)
    requires WellFormed(gates) && TopologicalRank(GraphOf(ById(gates)), rank)
    requires NextReady(gates, results).None? && NextBlocked(gates, results).None?
    ensures IdSet(gates) <= results.Keys
  {
    forall g | g in gates ensures g.id in results {
      if g.id !in results { ReferenceNeverStalls(gates, rank, results, g); }
    }
  }

  /** With nothing running, nothing ready and nothing blocked, no gate is pending. */
  lemma SchedulerNeverStalls(gates: seq<Gate>, rank: map<string, nat>, s: Scheduler)
    requires WellFormed(gates) && TopologicalRank(GraphOf(ById(gates)), rank)
    requires Consistent(gates, s) && s.running == []
    requires FirstReady(gates, s.states).None? && FirstBlocked(gates, s.states).None?
    ensures Finished(gates, s) && s.results.Keys == IdSet(gates)
  {
    QuiescentChoicesAgree(gates, s);
    SomethingCanHappen(gates, rank, s.results);
    forall g | g in gates ensures !IsPending(g, s.states) {
      assert g.id in IdSet(gates);
      assert s.states[g.id] == StateOf(s, g.id);
    }
  }

  /** Until it is finished, every reachable state has an enabled event. */
  lemma RunsCanContinue(gates: seq<Gate>, maxActive: int, s: Scheduler)
    requires WellFormed(gates) && maxActive >= 1
    requires Consistent(gates, s) && !Finished(gates, s)
    ensures exists e :: Enabled(gates, maxActive, s, e)
  {
    if |s.running| < maxActive && FirstReady(gates, s.states).Some? {
      assert Enabled(gates, maxActive, s, Start(FirstReady(gates, s.states).value.id));
    } else if s.running != [] {
      assert Enabled(gates, maxActive, s, Settle(s.running[0]));
    } else if FirstBlocked(gates, s.states).Some? {
      assert Enabled(gates, maxActive, s, Skip(FirstBlocked(gates, s.states).value.id));
    } else {
      AcyclicIffRanked(GraphOf(ById(gates)));
      var rank :| TopologicalRank(GraphOf(ById(gates)), rank);
      SchedulerNeverStalls(gates, rank, s);
    }
  }

  function PendingIds(s: Scheduler): set<string> {
    set id | id in s.states && s.states[id] == Pending
  }

  function Measure(s: Scheduler): nat {
    2 * |PendingIds(s)| + |s.running|
  }

  lemma SettleDecreases(gates: seq<Gate>, execute: string -> Status, s: Scheduler, id: string)
    requires Consistent(gates, s) && id in s.running
    ensures Measure(Apply(gates, execute, s, Settle(id))) < Measure(s)
  {
    assert s.states[id] == StateOf(s, id);
    SettleKeepsConsistent(gates, execute, s, id);
    assert PendingIds(Apply(gates, execute, s, Settle(id))) == PendingIds(s);
  }

  /** Starting or skipping takes a gate out of the pending ones. */
  lemma LeavingPendingDecreases(s: Scheduler, t: Scheduler, id: string)
    requires id in s.states && s.states[id] == Pending
    requires t.states == s.states[id := Running] || t.states == s.states[id := Settled(Skipped)]
    requires |t.running| <= |s.running| + 1
    ensures Measure(t) < Measure(s)
  {
    assert PendingIds(t) == PendingIds(s) - {id};
  }

  lemma StepDecreases(gates: seq<Gate>, maxActive: int, execute: string -> Status, s: Scheduler, e: Event)
    requires Consistent(gates, s) && Enabled(gates, maxActive, s, e)
    ensures Measure(Apply(gates, execute, s, e)) < Measure(s)
  {
    if e.Settle? {
      SettleDecreases(gates, execute, s, e.id);
    } else {
      LeavingPendingDecreases(s, Apply(gates, execute, s, e), e.id);
    }
  }

  /** No run has more than two events per gate. */
  lemma {:induction false} RunsAreFinite(gates: seq<Gate>, maxActive: int, execute: string -> Status, trace: seq<Event>)
    requires WellFormed(gates) && maxActive >= 1 && IsRun(gates, maxActive, execute, trace)
    ensures |trace| + Measure(After(gates, execute, trace)) <= 2 * |gates|
  {
    if trace == [] {
      assert PendingIds(Init(gates)) == IdSet(gates);
      IdCount(gates);
    } else {
      var before := trace[..|trace| - 1];
      RunsAreFinite(gates, maxActive, execute, before);
      ReachableStates(gates, maxActive, execute, before);
      StepDecreases(gates, maxActive, execute, After(gates, execute, before), trace[|trace| - 1]);
    }
  }

  lemma {:induction false} IdCount(gates: seq<Gate>)
    ensures |IdSet(gates)| <= |gates|
  {
    if gates != [] {
      var init := gates[..|gates| - 1];
      IdCount(init);
      assert gates == init + [gates[|gates| - 1]];
      assert IdSet(gates) == IdSet(init) + {gates[|gates| - 1].id};
    }
  }

  // ---- Confluence ----

  /** A finished run has recorded exactly the reference results, skip messages included. */
  lemma FinishedRunsAgree(gates: seq<Gate>, maxActive: int, execute: string -> Status, trace: seq<Event>)
    requires WellFormed(gates) && maxActive >= 1
    requires IsRun(gates, maxActive, execute, trace) && Finished(gates, After(gates, execute, trace))
    ensures After(gates, execute, trace).results == Sequential(gates, execute, map[])
  {
    ReachableStates(gates, maxActive, execute, trace);
    var s := After(gates, execute, trace);
    forall g | g in gates ensures g.id in s.results {
      assert g.id in IdSet(gates);
      assert s.states[g.id] == StateOf(s, g.id);
    }
    assert Sequential(gates, execute, s.results) == s.results;
  }

  /** Interleaving and worker count are invisible in the results. */
  lemma Confluence(gates: seq<Gate>, execute: string -> Status, one: int, oneTrace: seq<Event>, two: int, twoTrace: seq<Event>)
    requires WellFormed(gates) && one >= 1 && two >= 1
    requires IsRun(gates, one, execute, oneTrace) && Finished(gates, After(gates, execute, oneTrace))
    requires IsRun(gates, two, execute, twoTrace) && Finished(gates, After(gates, execute, twoTrace))
    ensures After(gates, execute, oneTrace).results == After(gates, execute, twoTrace).results
  {
    FinishedRunsAgree(gates, one, execute, oneTrace);
    FinishedRunsAgree(gates, two, execute, twoTrace);
  }

  // ---- The verdict a graph denotes ----

  /** A gate's own outcome if all its needs denote passed, otherwise skipped. */
  function Denote(gates: map<string, Gate>, execute: string -> Status, depth: nat, id: string): Status {
    if depth == 0 || id !in gates then Skipped
    else if forall n | n in gates[id].needs :: Denote(gates, execute, depth - 1, n) == Passed then execute(id)
    else Skipped
  }

  function Verdict(gates: seq<Gate>, execute: string -> Status, id: string): Status {
    Denote(ById(gates), execute, |gates|, id)
  }

  /** An executed gate ran with all needs passed; a skipped gate has a failed need. */
  ghost predicate JustifiedGate(execute: string -> Status, results: Results, g: Gate)
    requires g.id in results
  {
    match results[g.id]
    case Executed(status) => status == execute(g.id) && forall n | n in g.needs :: n in results && StatusOf(results[n]) == Passed
    case DependencyFailed(_) => BlockedIn(g, results)
  }

  ghost predicate Justified(gates: seq<Gate>, execute: string -> Status, results: Results) {
    forall g {:trigger JustifiedGate(execute, results, g)} | g in gates && g.id in results :: JustifiedGate(execute, results, g)
  }

  lemma {:induction false} SequentialIsJustified(gates: seq<Gate>, execute: string -> Status, results: Results)
    requires DistinctIds(gates) && Justified(gates, execute, results)
    ensures Justified(gates, execute, Sequential(gates, execute, results))
    decreases Remaining(gates, results)
  {
    var ready, blocked := NextReady(gates, results), NextBlocked(gates, results);
    if ready.Some? {
      RecordKeepsJustified(gates, execute, results, ready.value, Executed(execute(ready.value.id)));
      var next := RunOne(execute, results, ready.value.id);
      assert ready.value.id !in Remaining(gates, next);
      SequentialIsJustified(gates, execute, next);
    } else if blocked.Some? {
      var r := DependencyFailed(FailedNeeds(blocked.value, results));
      RecordKeepsJustified(gates, execute, results, blocked.value, r);
      var next := Record(results, blocked.value.id, r);
      assert blocked.value.id !in Remaining(gates, next);
      SequentialIsJustified(gates, execute, next);
    }
  }

  lemma RecordKeepsJustified(gates: seq<Gate>, execute: string -> Status, results: Results, g: Gate, r: GateResult)
    requires DistinctIds(gates) && Justified(gates, execute, results) && g in gates && g.id !in results
    requires (r == Executed(execute(g.id)) && ReadyIn(g, results)) || (r.DependencyFailed? && BlockedIn(g, results))
    ensures Justified(gates, execute, Record(results, g.id, r))
  {
    var next := Record(results, g.id, r);
    forall h | h in gates && h.id in next ensures JustifiedGate(execute, next, h) {
      if h.id == g.id {
        ByIdFinds(gates, h);
        ByIdFinds(gates, g);
      } else {
        assert JustifiedGate(execute, results, h);
      }
      if BlockedIn(h, results) {
        var n :| n in h.needs && FailedIn(results, n);
        assert FailedIn(next, n);
      }
    }
  }

  /** The reference stops only when nothing more is ready or blocked. */
  lemma {:induction false} SequentialEnds(gates: seq<Gate>, execute: string -> Status, results: Results)
    requires results.Keys <= IdSet(gates)
    ensures Sequential(gates, execute, results).Keys <= IdSet(gates)
    ensures NextReady(gates, Sequential(gates, execute, results)).None?
    ensures NextBlocked(gates, Sequential(gates, execute, results)).None?
    decreases Remaining(gates, results)
  {
    var ready, blocked := NextReady(gates, results), NextBlocked(gates, results);
    if ready.Some? {
      var next := RunOne(execute, results, ready.value.id);
      assert ready.value.id !in Remaining(gates, next);
      SequentialEnds(gates, execute, next);
    } else if blocked.Some? {
      var next := Record(results, blocked.value.id, DependencyFailed(FailedNeeds(blocked.value, results)));
      assert blocked.value.id !in Remaining(gates, next);
      SequentialEnds(gates, execute, next);
    }
  }

  lemma SequentialIsTotal(gates: seq<Gate>, rank: map<string, nat>, execute: string -> Status, results: Results)
    requires WellFormed(gates) && TopologicalRank(GraphOf(ById(gates)), rank) && results.Keys <= IdSet(gates)
    ensures Sequential(gates, execute, results).Keys == IdSet(gates)
  {
    SequentialEnds(gates, execute, results);
    SomethingCanHappen(gates, rank, Sequential(gates, execute, results));
  }

  /** Justified results satisfy the defining equation of the denotation. */
  lemma EquationHolds(gates: seq<Gate>, execute: string -> Status, results: Results, g: Gate, depth: nat)
    requires Justified(gates, execute, results) && g in gates && g.id in results && depth > 0
    requires g.id in ById(gates) && ById(gates)[g.id] == g
    requires forall n | n in g.needs :: n in results && StatusOf(results[n]) == Denote(ById(gates), execute, depth - 1, n)
    ensures StatusOf(results[g.id]) == Denote(ById(gates), execute, depth, g.id)
  {
    assert JustifiedGate(execute, results, g);
    if results[g.id].DependencyFailed? {
      var n :| n in g.needs && FailedIn(results, n);
    }
  }

  ghost predicate NeedsBelow(m: map<string, Gate>, rank: map<string, nat>, id: string)
    requires rank.Keys == m.Keys && id in m
  {
    forall n | n in m[id].needs :: n in m && rank[n] < rank[id]
  }

  /** Every need is a gate with a result and a lower rank. */
  ghost predicate NeedsRanked(m: map<string, Gate>, rank: map<string, nat>, results: Results) {
    && rank.Keys == results.Keys == m.Keys
    && forall id {:trigger NeedsBelow(m, rank, id)} | id in m :: NeedsBelow(m, rank, id)
  }

  lemma WellFormedNeedsRanked(gates: seq<Gate>, rank: map<string, nat>, results: Results)
    requires WellFormed(gates) && TopologicalRank(GraphOf(ById(gates)), rank) && results.Keys == IdSet(gates)
    ensures NeedsRanked(ById(gates), rank, results)
  {
    var m := ById(gates);
    forall id | id in m ensures NeedsBelow(m, rank, id) {
      forall n | n in m[id].needs ensures n in m && rank[n] < rank[id] {
        assert Resolves(gates, m[id]) && n in Predecessors(m[id]);
        assert Edge(GraphOf(m), id, n);
      }
    }
  }

  /** Justified total results are the denotation, gate by gate along the ranks. */
  lemma {:induction false} JustifiedIsDenoted(
    gates: seq<Gate>, rank: map<string, nat>, execute: string -> Status, results: Results, id: string, depth: nat)
    requires Justified(gates, execute, results) && NeedsRanked(ById(gates), rank, results)
    requires id in rank && rank[id] < depth
    ensures StatusOf(results[id]) == Denote(ById(gates), execute, depth, id)
    decreases depth, 1
  {
    assert NeedsBelow(ById(gates), rank, id);
    NeedsAreDenoted(gates, rank, execute, results, id, depth);
    EquationHolds(gates, execute, results, ById(gates)[id], depth);
  }

  lemma {:induction false} NeedsAreDenoted(
    gates: seq<Gate>, rank: map<string, nat>, execute: string -> Status, results: Results, id: string, depth: nat)
    requires Justified(gates, execute, results) && NeedsRanked(ById(gates), rank, results)
    requires id in rank && rank[id] < depth
    ensures forall n | n in ById(gates)[id].needs ::
              n in results && StatusOf(results[n]) == Denote(ById(gates), execute, depth - 1, n)
    decreases depth, 0
  {
    assert NeedsBelow(ById(gates), rank, id);
    forall n | n in ById(gates)[id].needs
      ensures n in results && StatusOf(results[n]) == Denote(ById(gates), execute, depth - 1, n)
    {
      JustifiedIsDenoted(gates, rank, execute, results, n, depth - 1);
    }
  }

  /** The reference, hence every finished run, gives each gate the status its graph denotes. */
  lemma SequentialIsDenoted(gates: seq<Gate>, execute: string -> Status)
    requires WellFormed(gates)
    ensures Sequential(gates, execute, map[]).Keys == IdSet(gates)
    ensures forall g | g in gates :: g.id in IdSet(gates)
    ensures forall g | g in gates :: StatusOf(Sequential(gates, execute, map[])[g.id]) == Verdict(gates, execute, g.id)
  {
    AcyclicIffRanked(GraphOf(ById(gates)));
    var rank :| TopologicalRank(GraphOf(ById(gates)), rank);
    SequentialIsTotal(gates, rank, execute, map[]);
    SequentialIsJustified(gates, execute, map[]);
    assert rank.Keys == IdSet(gates);
    assert |rank| == |rank.Keys|;
    IdCount(gates);
    WellFormedNeedsRanked(gates, rank, Sequential(gates, execute, map[]));
    forall g | g in gates
      ensures g.id in IdSet(gates)
      ensures StatusOf(Sequential(gates, execute, map[])[g.id]) == Verdict(gates, execute, g.id)
    {
      JustifiedIsDenoted(gates, rank, execute, Sequential(gates, execute, map[]), g.id, |gates|);
    }
  }

  /** A gate's verdict when its needs have these: its own outcome if all passed, otherwise skipped. */
  function FromNeeds(execute: string -> Status, verdict: string -> Status, g: Gate): Status {
    if forall n | n in g.needs :: verdict(n) == Passed then execute(g.id) else Skipped
  }

  function VerdictOf(gates: seq<Gate>, execute: string -> Status): string -> Status {
    (id: string) => Verdict(gates, execute, id)
  }

  /** The verdicts satisfy the recursive equation over the graph. */
  lemma VerdictEquation(gates: seq<Gate>, execute: string -> Status, g: Gate)
    requires WellFormed(gates) && g in gates
    ensures Verdict(gates, execute, g.id) == FromNeeds(execute, VerdictOf(gates, execute), g)
  {
    var results := Sequential(gates, execute, map[]);
    SequentialIsDenoted(gates, execute);
    SequentialIsJustified(gates, execute, map[]);
    assert g.id in results && JustifiedGate(execute, results, g);
    forall n | n in g.needs ensures n in results && StatusOf(results[n]) == Verdict(gates, execute, n) {
      assert Resolves(gates, g) && n in Predecessors(g);
      var h :| h in gates && h.id == n;
    }
    if results[g.id].DependencyFailed? {
      var n :| n in g.needs && FailedIn(results, n);
    }
  }

  /** And they are the only solution of that equation. */
  lemma VerdictIsUnique(gates: seq<Gate>, execute: string -> Status, verdict: string -> Status, g: Gate)
    requires WellFormed(gates) && g in gates
    requires forall h | h in gates :: verdict(h.id) == FromNeeds(execute, verdict, h)
    ensures verdict(g.id) == Verdict(gates, execute, g.id)
  {
    AcyclicIffRanked(GraphOf(ById(gates)));
    var rank :| TopologicalRank(GraphOf(ById(gates)), rank);
    SequentialIsTotal(gates, rank, execute, map[]);
    WellFormedNeedsRanked(gates, rank, Sequential(gates, execute, map[]));
    assert rank.Keys == IdSet(gates) && |rank| == |rank.Keys|;
    IdCount(gates);
    ByIdFinds(gates, g);
    var m := ById(gates);
    forall id {:trigger Solves(m, execute, verdict, id)} | id in m ensures Solves(m, execute, verdict, id) {
      assert m[id] in gates;
    }
    SolutionIsDenoted(m, rank, execute, verdict, g.id, |gates|);
  }

  ghost predicate Solves(m: map<string, Gate>, execute: string -> Status, verdict: string -> Status, id: string)
    requires id in m
  {
    verdict(id) == if forall n | n in m[id].needs :: verdict(n) == Passed then execute(id) else Skipped
  }

  lemma {:induction false} SolutionIsDenoted(
    m: map<string, Gate>, rank: map<string, nat>, execute: string -> Status, verdict: string -> Status, id: string, depth: nat)
    requires rank.Keys == m.Keys && forall x {:trigger NeedsBelow(m, rank, x)} | x in m :: NeedsBelow(m, rank, x)
    requires forall x {:trigger Solves(m, execute, verdict, x)} | x in m :: Solves(m, execute, verdict, x)
    requires id in rank && rank[id] < depth
    ensures verdict(id) == Denote(m, execute, depth, id)
    decreases depth
  {
    assert NeedsBelow(m, rank, id) && Solves(m, execute, verdict, id);
    forall n | n in m[id].needs ensures verdict(n) == Denote(m, execute, depth - 1, n) {
      SolutionIsDenoted(m, rank, execute, verdict, n, depth - 1);
    }
  }

  // ---- Each gate runs at most once, and only when entitled ----

  predicate WasStarted(s: Scheduler, id: string) {
    id in s.running || (id in s.results && s.results[id].Executed?)
  }

  lemma ReachableIsConsistent(gates: seq<Gate>, maxActive: int, execute: string -> Status, trace: seq<Event>)
    requires WellFormed(gates) && maxActive >= 1 && IsRun(gates, maxActive, execute, trace)
    ensures Consistent(gates, After(gates, execute, trace))
  {
    ReachableStates(gates, maxActive, execute, trace);
  }

  lemma StartedStep(gates: seq<Gate>, maxActive: int, execute: string -> Status, s: Scheduler, e: Event, id: string)
    requires Consistent(gates, s) && Enabled(gates, maxActive, s, e)
    ensures WasStarted(Apply(gates, execute, s, e), id) <==> WasStarted(s, id) || e == Start(id)
    ensures e == Start(id) ==> !WasStarted(s, id)
  {
    assert e.id in s.states && s.states[e.id] == StateOf(s, e.id);
    if e.Settle? { WithoutProperties(s.running, e.id); }
  }

  /** The gates started so far are those running and those with an executor's result. */
  lemma {:induction false} StartedGates(gates: seq<Gate>, maxActive: int, execute: string -> Status, trace: seq<Event>, id: string)
    requires WellFormed(gates) && maxActive >= 1 && IsRun(gates, maxActive, execute, trace)
    ensures Start(id) in trace <==> WasStarted(After(gates, execute, trace), id)
  {
    if trace != [] {
      var before, e := trace[..|trace| - 1], trace[|trace| - 1];
      assert trace == before + [e];
      StartedGates(gates, maxActive, execute, before, id);
      ReachableIsConsistent(gates, maxActive, execute, before);
      StartedStep(gates, maxActive, execute, After(gates, execute, before), e, id);
    }
  }

  lemma {:induction false} RunPrefix(gates: seq<Gate>, maxActive: int, execute: string -> Status, trace: seq<Event>, n: nat)
    requires IsRun(gates, maxActive, execute, trace) && n <= |trace|
    ensures IsRun(gates, maxActive, execute, trace[..n])
  {
    if n < |trace| {
      RunPrefix(gates, maxActive, execute, trace[..|trace| - 1], n);
      assert trace[..|trace| - 1][..n] == trace[..n];
    } else {
      assert trace[..n] == trace;
    }
  }

  /**
   * A start happens below the worker bound, for a gate never started before,
   * after all its needs passed and its `after` gates settled, and no gate
   * earlier in the list was ready.
   */
  lemma StartsAreLegal(gates: seq<Gate>, maxActive: int, execute: string -> Status, trace: seq<Event>, n: nat) returns (k: nat)
    requires WellFormed(gates) && maxActive >= 1 && IsRun(gates, maxActive, execute, trace)
    requires n < |trace| && trace[n].Start?
    ensures k < |gates| && gates[k].id == trace[n].id
    ensures trace[n] !in trace[..n]
    ensures var s := After(gates, execute, trace[..n]);
            && |s.running| < maxActive
            && ReadyIn(gates[k], s.results)
            && forall j | 0 <= j < k :: !(IsPending(gates[j], s.states) && PredecessorsReady(gates[j], s.states))
  {
    var s := After(gates, execute, trace[..n]);
    RunPrefix(gates, maxActive, execute, trace, n + 1);
    assert trace[..n + 1][..n] == trace[..n];
    RunPrefix(gates, maxActive, execute, trace, n);
    ReachableStates(gates, maxActive, execute, trace[..n]);
    StartedGates(gates, maxActive, execute, trace[..n], trace[n].id);
    StartedStep(gates, maxActive, execute, s, trace[n], trace[n].id);
    k := FindIsFirst(gates, (g: Gate) => IsPending(g, s.states) && PredecessorsReady(g, s.states));
    ReadinessAgrees(gates, s, gates[k]);
  }

  /** A finished run started exactly the gates all of whose needs denote passed. */
  lemma ExecutedGates(gates: seq<Gate>, maxActive: int, execute: string -> Status, trace: seq<Event>, g: Gate)
    requires WellFormed(gates) && maxActive >= 1 && g in gates
    requires IsRun(gates, maxActive, execute, trace) && Finished(gates, After(gates, execute, trace))
    ensures Start(g.id) in trace <==> forall n | n in g.needs :: Verdict(gates, execute, n) == Passed
  {
    FinishedRunsAgree(gates, maxActive, execute, trace);
    StartedGates(gates, maxActive, execute, trace, g.id);
    SequentialIsDenoted(gates, execute);
    SequentialIsJustified(gates, execute, map[]);
    var results := Sequential(gates, execute, map[]);
    forall n | n in g.needs ensures n in results && StatusOf(results[n]) == Verdict(gates, execute, n) {
      assert Resolves(gates, g) && n in Predecessors(g);
      var h :| h in gates && h.id == n;
    }
    assert JustifiedGate(execute, results, g);
  }

  // ---- The exit decision of `main` ----

  function InOrder(gates: seq<Gate>, results: Results): seq<GateResult>
    requires forall g | g in gates :: g.id in results
  {
    seq(|gates|, i requires 0 <= i < |gates| => results[gates[i].id])
  }

  function ExitCode(gates: seq<Gate>, results: seq<GateResult>): nat
    requires |results| == |gates|
  {
    if exists i | 0 <= i < |gates| :: !gates[i].allowFailure && StatusOf(results[i]) != Passed then 1 else 0
  }

  lemma ExitCodeCounts(gates: seq<Gate>, results: Results)
    requires forall g | g in gates :: g.id in results
    ensures ExitCode(gates, InOrder(gates, results)) == 0
            <==> forall g | g in gates && !g.allowFailure :: StatusOf(results[g.id]) == Passed
  {
    if ExitCode(gates, InOrder(gates, results)) == 0 {
      forall g | g in gates && !g.allowFailure ensures StatusOf(results[g.id]) == Passed {
        var i :| 0 <= i < |gates| && gates[i] == g;
        assert StatusOf(InOrder(gates, results)[i]) == Passed;
      }
    }
  }

  /** The process succeeds exactly when every blocking gate denotes passed. */
  lemma ExitCodeIsVerdict(gates: seq<Gate>, execute: string -> Status, results: Results)
    requires WellFormed(gates)
    requires results == Sequential(gates, execute, map[])
    ensures forall g | g in gates :: g.id in results
    ensures ExitCode(gates, InOrder(gates, results)) == 0
            <==> forall g | g in gates && !g.allowFailure :: Verdict(gates, execute, g.id) == Passed
  {
    SequentialIsDenoted(gates, execute);
    ExitCodeCounts(gates, results);
  }

  /** The same gates up to their `after` lists. */
  ghost predicate SameNeeds(one: seq<Gate>, two: seq<Gate>) {
    |one| == |two| && forall i | 0 <= i < |one| :: one[i] == two[i].(after := one[i].after)
  }

  lemma {:induction false} DenoteReadsNeeds(
    one: map<string, Gate>, two: map<string, Gate>, execute: string -> Status, depth: nat, id: string)
    requires one.Keys == two.Keys && forall x | x in one :: one[x].needs == two[x].needs
    ensures Denote(one, execute, depth, id) == Denote(two, execute, depth, id)
  {
    if depth != 0 && id in one {
      forall n | n in one[id].needs
        ensures Denote(one, execute, depth - 1, n) == Denote(two, execute, depth - 1, n)
      {
        DenoteReadsNeeds(one, two, execute, depth - 1, n);
      }
    }
  }

  lemma {:induction false} SameNeedsById(one: seq<Gate>, two: seq<Gate>)
    requires SameNeeds(one, two)
    ensures ById(one).Keys == ById(two).Keys
    ensures forall id | id in ById(one) :: ById(one)[id].needs == ById(two)[id].needs
  {
    if one != [] {
      SameNeedsById(one[..|one| - 1], two[..|two| - 1]);
    }
  }

  lemma SameNeedsSameVerdict(one: seq<Gate>, two: seq<Gate>, execute: string -> Status, id: string)
    requires SameNeeds(one, two)
    ensures Verdict(one, execute, id) == Verdict(two, execute, id)
  {
    SameNeedsById(one, two);
    DenoteReadsNeeds(ById(one), ById(two), execute, |one|, id);
  }

  /**
   * `after` edges only order executions: finished runs of two graphs that
   * differ only in them, with any worker counts and interleavings, record the
   * same status for every gate.
   */
  lemma AfterEdgesDoNotMatter(
    one: seq<Gate>, two: seq<Gate>, execute: string -> Status,
    oneWorkers: int, twoWorkers: int, oneTrace: seq<Event>, twoTrace: seq<Event>, i: nat)
    requires WellFormed(one) && WellFormed(two) && SameNeeds(one, two) && oneWorkers >= 1 && twoWorkers >= 1
    requires IsRun(one, oneWorkers, execute, oneTrace) && Finished(one, After(one, execute, oneTrace))
    requires IsRun(two, twoWorkers, execute, twoTrace) && Finished(two, After(two, execute, twoTrace))
    requires i < |one|
    ensures var oneResults, twoResults := After(one, execute, oneTrace).results, After(two, execute, twoTrace).results;
            && one[i].id == two[i].id && one[i].id in oneResults && two[i].id in twoResults
            && StatusOf(oneResults[one[i].id]) == StatusOf(twoResults[two[i].id])
  {
    FinishedRunsAgree(one, oneWorkers, execute, oneTrace);
    FinishedRunsAgree(two, twoWorkers, execute, twoTrace);
    SequentialIsDenoted(one, execute);
    SequentialIsDenoted(two, execute);
    SameNeedsSameVerdict(one, two, execute, one[i].id);
    assert one[i] in one && two[i] in two;
  }
}
