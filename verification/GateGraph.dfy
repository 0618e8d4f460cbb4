/** The gate graph of scripts/run-gates.ts: validation and cycle detection. */
module GateGraph {
  import opened Prelude
  import opened Digraph

  /** A gate; an absent `needs` or `after` list is the empty list. */
  datatype Gate = Gate(id: string, needs: seq<string>, after: seq<string>, allowFailure: bool)

  datatype GraphError =
    | NoGates
    | DuplicateId(id: string)
    | UnknownNeed(gate: string, dependency: string)
    | UnknownAfter(gate: string, predecessor: string)
    | DependencyCycle(cycle: seq<string>)
    | BadConcurrency(maxActive: int)

  function Predecessors(g: Gate): seq<string> {
    g.needs + g.after
  }

  function IdSet(gates: seq<Gate>): set<string> {
    set g | g in gates :: g.id
  }

  function GateIds(gates: seq<Gate>): seq<string> {
    seq(|gates|, i requires 0 <= i < |gates| => gates[i].id)
  }

  ghost predicate DistinctIds(gates: seq<Gate>) {
    forall i, j | 0 <= i < j < |gates| :: gates[i].id != gates[j].id
  }

  /** A map built from the list in order, so a later gate replaces an earlier one. */
  function ById(gates: seq<Gate>): (m: map<string, Gate>)
    ensures m.Keys == IdSet(gates)
    ensures forall id | id in m :: m[id] in gates && m[id].id == id
  {
    if gates == [] then
      map[]
    else
      var last := gates[|gates| - 1];
      var init := gates[..|gates| - 1];
      assert gates == init + [last];
      ById(init)[last.id := last]
  }

  /** With distinct ids every gate is found under its own id. */
  lemma {:induction false} ByIdFinds(gates: seq<Gate>, g: Gate)
    requires DistinctIds(gates) && g in gates
    ensures g.id in ById(gates) && ById(gates)[g.id] == g
  {
    var h := ById(gates)[g.id];
    var i :| 0 <= i < |gates| && gates[i] == g;
    var j :| 0 <= j < |gates| && gates[j] == h;
  }

  /** The graph the cycle check walks: from each gate to its predecessors. */
  function GraphOf(m: map<string, Gate>): (g: Digraph.Graph)
    ensures g.Keys == m.Keys
  {
    map id | id in m :: Predecessors(m[id])
  }

  /** The active gates are those on the path, each at its position. */
  ghost predicate OnPath(g: Digraph.Graph, active: map<string, nat>, path: seq<string>) {
    && Distinct(path)
    && IsPath(g, path)
    && active.Keys == Elements(path)
    && active.Keys <= g.Keys
    && (forall i | 0 <= i < |path| :: path[i] in active && active[path[i]] == i)
  }

  /** What the shared search variables mean between two `visit` steps. */
  ghost predicate SearchState(
    g: Digraph.Graph, complete: set<string>, active: map<string, nat>, path: seq<string>, rank: map<string, nat>)
  {
    && OnPath(g, active, path)
    && complete == rank.Keys
    && complete !! active.Keys
    && Ranks(g, rank)
  }

  ghost predicate AllComplete(g: Digraph.Graph, ids: seq<string>, complete: set<string>) {
    forall p | p in ids && p in g :: p in complete
  }

  lemma OneMoreComplete(g: Digraph.Graph, ids: seq<string>, i: nat, before: set<string>, complete: set<string>)
    requires i < |ids| && AllComplete(g, ids[..i], before) && before <= complete
    requires ids[i] in g ==> ids[i] in complete
    ensures AllComplete(g, ids[..i + 1], complete)
  {
    assert ids[..i + 1] == ids[..i] + [ids[i]];
  }

  lemma EnterPath(g: Digraph.Graph, active: map<string, nat>, path: seq<string>, id: string)
    requires OnPath(g, active, path) && id in g && id !in active
    requires path != [] ==> Edge(g, path[|path| - 1], id)
    ensures OnPath(g, active[id := |path|], path + [id])
  {
    var grown := path + [id];
    assert Elements(grown) == Elements(path) + {id};
    forall i | 0 <= i < |grown| - 1 ensures Edge(g, grown[i], grown[i + 1]) {
      if i < |path| - 1 { assert Edge(g, path[i], path[i + 1]); }
    }
    forall i | 0 <= i < |path| ensures path[i] != id {
      assert path[i] in Elements(path);
    }
  }

  lemma EnterKeepsState(
    g: Digraph.Graph, complete: set<string>, active: map<string, nat>, path: seq<string>, rank: map<string, nat>, id: string)
    requires SearchState(g, complete, active, path, rank)
    requires id in g && id !in complete && id !in active
    requires path != [] ==> Edge(g, path[|path| - 1], id)
    ensures SearchState(g, complete, active[id := |path|], path + [id], rank)
  {
    EnterPath(g, active, path, id);
    InsertKey(active, id, |path|);
  }

  lemma LeavePath(g: Digraph.Graph, active: map<string, nat>, path: seq<string>, id: string)
    requires OnPath(g, active[id := |path|], path + [id]) && id !in active
    ensures OnPath(g, active, path)
  {
    var grown := path + [id];
    assert active.Keys == active[id := |path|].Keys - {id};
    assert grown[|path|] == id;
    assert Elements(grown) == Elements(path) + {id};
    forall i | 0 <= i < |path| ensures path[i] in active && active[path[i]] == i && path[i] != id {
      assert grown[i] == path[i];
    }
    forall i | 0 <= i < |path| - 1 ensures Edge(g, path[i], path[i + 1]) {
      assert Edge(g, grown[i], grown[i + 1]);
    }
  }

  /** A gate whose predecessors are all complete can be ranked next. */
  lemma RankNext(g: Digraph.Graph, rank: map<string, nat>, id: string)
    requires Ranks(g, rank) && id in g && id !in rank && AllComplete(g, g[id], rank.Keys)
    ensures Ranks(g, rank[id := |rank|])
  {
    assert |rank[id := |rank|]| == |rank| + 1;
  }

  lemma LeaveKeepsState(
    g: Digraph.Graph, complete: set<string>, active: map<string, nat>, path: seq<string>, rank: map<string, nat>, id: string)
    requires SearchState(g, complete, active[id := |path|], path + [id], rank) && id in g && id !in active
    requires AllComplete(g, g[id], complete)
    ensures SearchState(g, complete + {id}, active, path, rank[id := |rank|])
  {
    InsertKey(active, id, |path|);
    InsertKey(rank, id, |rank|);
    MoveAcross(complete, active.Keys, id);
    LeavePath(g, active, path, id);
    RankNext(g, rank, id);
  }

  lemma InsertKey(m: map<string, nat>, id: string, n: nat)
    ensures m[id := n].Keys == m.Keys + {id}
  {
  }

  lemma MoveAcross(complete: set<string>, active: set<string>, id: string)
    requires complete !! active + {id} && id !in active
    ensures complete + {id} !! active && id !in complete
  {
    assert id in active + {id};
  }

  lemma LeaveUndoesEnter(active: map<string, nat>, path: seq<string>, id: string)
    requires id !in active
    ensures (path + [id])[..|path|] == path && active[id := |path|] - {id} == active
  {
  }

  lemma ActiveAncestorClosesCycle(
    g: Digraph.Graph, complete: set<string>, active: map<string, nat>, path: seq<string>, rank: map<string, nat>, id: string)
    requires SearchState(g, complete, active, path, rank) && id in active
    requires path != [] ==> Edge(g, path[|path| - 1], id)
    ensures id in path && active[id] < |path|
    ensures IsSimpleCycle(g, path[active[id]..] + [id])
  {
    assert id in Elements(path);
    var start := active[id];
    var i :| 0 <= i < |path| && path[i] == id;
    var found := path[start..] + [id];
    forall i | 0 <= i < |found| - 1 ensures Edge(g, found[i], found[i + 1]) {
      if i < |found| - 2 { assert Edge(g, path[start + i], path[start + i + 1]); }
    }
    assert found[..|found| - 1] == path[start..];
  }

  /**
   * The depth-first search of `findDependencyCycle`, with the variables its
   * `visit` closure shares. `rank` only records the order in which gates became complete.
   */
  class CycleFinder {
    const byId: map<string, Gate>
    ghost const graph: Digraph.Graph
    var complete: set<string>
    var active: map<string, nat>
    var path: seq<string>
    ghost var rank: map<string, nat>

    constructor (gates: seq<Gate>)
      ensures Valid() && path == [] && active == map[] && byId == ById(gates) && graph == GraphOf(byId)
    {
      byId := ById(gates);
      graph := GraphOf(ById(gates));
      complete, active, path, rank := {}, map[], [], map[];
    }

    ghost predicate Valid()
      reads this
    {
      graph == GraphOf(byId) && SearchState(graph, complete, active, path, rank)
    }

    method Enter(id: string)
      requires Valid() && id in byId && id !in complete && id !in active
      requires path != [] ==> Edge(graph, path[|path| - 1], id)
      modifies `active, `path
      ensures Valid()
      ensures path == old(path) + [id] && active == old(active)[id := |old(path)|]
    {
      EnterKeepsState(graph, complete, active, path, rank, id);
      active := active[id := |path|];
      path := path + [id];
    }

    method Leave(id: string, ghost outer: seq<string>, ghost outerActive: map<string, nat>)
      requires Valid() && path == outer + [id] && active == outerActive[id := |outer|]
      requires id in byId && id !in outerActive
      requires AllComplete(graph, graph[id], complete)
      modifies `active, `path, `complete, `rank
      ensures Valid()
      ensures path == outer && active == outerActive && complete == old(complete) + {id}
    {
      LeaveKeepsState(graph, complete, outerActive, outer, rank, id);
      LeaveUndoesEnter(outerActive, outer, id);
      path := path[..|path| - 1];
      active := active - {id};
      complete := complete + {id};
      rank := rank[id := |rank|];
    }

    method Visit(id: string) returns (cycle: Option<seq<string>>)
      requires Valid()
      requires path != [] ==> Edge(graph, path[|path| - 1], id)
      modifies `active, `path, `complete, `rank
      decreases byId.Keys - active.Keys
      ensures cycle.Some? ==> IsSimpleCycle(graph, cycle.value)
      ensures cycle.None? ==> Valid() && path == old(path) && active == old(active)
      ensures cycle.None? ==> old(complete) <= complete && (id in byId ==> id in complete)
    {
      if id in complete {
        return None;
      }
      if id in active {
        ActiveAncestorClosesCycle(graph, complete, active, path, rank, id);
        return Some(path[active[id]..] + [id]);
      }
      if id !in byId {
        return None;
      }
      ghost var outer, outerActive := path, active;
      assert id in byId.Keys - active.Keys;
      Enter(id);
      var predecessors := Predecessors(byId[id]);
      for i := 0 to |predecessors|
        invariant Valid() && path == outer + [id] && active == outerActive[id := |outer|]
        invariant old(complete) <= complete
        invariant AllComplete(graph, predecessors[..i], complete)
      {
        assert Edge(graph, id, predecessors[i]);
        assert id !in byId.Keys - active.Keys;
        ghost var before := complete;
        cycle := Visit(predecessors[i]);
        if cycle.Some? {
          return;
        }
        OneMoreComplete(graph, predecessors, i, before, complete);
      }
      assert predecessors[..|predecessors|] == predecessors;
      Leave(id, outer, outerActive);
      return None;
    }
  }

  /** Once every gate is complete, the completion order is topological. */
  lemma AllCompleteIsRanked(gates: seq<Gate>, complete: set<string>, rank: map<string, nat>)
    requires SearchState(GraphOf(ById(gates)), complete, map[], [], rank)
    requires AllComplete(GraphOf(ById(gates)), GateIds(gates), complete)
    ensures TopologicalRank(GraphOf(ById(gates)), rank) && Acyclic(GraphOf(ById(gates)))
  {
    forall id | id in ById(gates) ensures id in complete {
      var j :| 0 <= j < |gates| && gates[j] == ById(gates)[id];
      assert GateIds(gates)[j] == id;
    }
    assert rank.Keys == ById(gates).Keys;
    RankedIsAcyclic(GraphOf(ById(gates)), rank);
  }

  /** Reports a simple cycle when the graph has one, and nothing exactly when it is acyclic. */
  method FindDependencyCycle(gates: seq<Gate>) returns (cycle: Option<seq<string>>)
    ensures cycle.Some? ==> IsSimpleCycle(GraphOf(ById(gates)), cycle.value)
    ensures cycle.None? <==> Acyclic(GraphOf(ById(gates)))
  {
    var finder := new CycleFinder(gates);
    ghost var ids := GateIds(gates);
    for i := 0 to |gates|
      invariant finder.Valid() && finder.path == [] && finder.active == map[]
      invariant AllComplete(GraphOf(ById(gates)), ids[..i], finder.complete)
    {
      ghost var before := finder.complete;
      cycle := finder.Visit(gates[i].id);
      if cycle.Some? {
        assert IsCycle(GraphOf(ById(gates)), cycle.value);
        return;
      }
      OneMoreComplete(GraphOf(ById(gates)), ids, i, before, finder.complete);
    }
    assert ids[..|gates|] == ids;
    AllCompleteIsRanked(gates, finder.complete, finder.rank);
    return None;
  }

  /** A gate all of whose predecessors are gates of the aggregate. */
  ghost predicate Resolves(gates: seq<Gate>, g: Gate) {
    forall p | p in Predecessors(g) :: p in IdSet(gates)
  }

  /** What a gate list must satisfy before it can be executed. */
  ghost predicate WellFormed(gates: seq<Gate>) {
    && gates != []
    && DistinctIds(gates)
    && (forall g | g in gates :: Resolves(gates, g))
    && Acyclic(GraphOf(ById(gates)))
  }

  ghost predicate FirstUnresolved(gates: seq<Gate>, i: nat) {
    i < |gates| && DistinctIds(gates) && !Resolves(gates, gates[i]) && forall j | 0 <= j < i :: Resolves(gates, gates[j])
  }

  /** The rejection names the first defect in the order the checks are made. */
  ghost predicate Explains(gates: seq<Gate>, e: GraphError) {
    match e
    case NoGates => gates == []
    case DuplicateId(id) =>
      exists i | 0 <= i < |gates| :: gates[i].id == id && id in IdSet(gates[..i]) && DistinctIds(gates[..i])
    case UnknownNeed(gate, dependency) =>
      exists i: nat, k | FirstUnresolved(gates, i) && 0 <= k < |gates[i].needs| ::
        gates[i].id == gate && gates[i].needs[k] == dependency && dependency !in IdSet(gates)
        && forall n | n in gates[i].needs[..k] :: n in IdSet(gates)
    case UnknownAfter(gate, predecessor) =>
      exists i: nat, k | FirstUnresolved(gates, i) && 0 <= k < |gates[i].after| ::
        gates[i].id == gate && gates[i].after[k] == predecessor && predecessor !in IdSet(gates)
        && forall n | n in gates[i].needs + gates[i].after[..k] :: n in IdSet(gates)
    case DependencyCycle(cycle) =>
      DistinctIds(gates) && (forall g | g in gates :: Resolves(gates, g)) && IsSimpleCycle(GraphOf(ById(gates)), cycle)
    case BadConcurrency(_) => false
  }

  method ValidateGateGraph(gates: seq<Gate>) returns (error: Option<GraphError>)
    ensures error.None? <==> WellFormed(gates)
    ensures error.Some? ==> Explains(gates, error.value)
  {
    if |gates| == 0 {
      return Some(NoGates);
    }
    var ids: set<string> := {};
    for i := 0 to |gates|
      invariant ids == IdSet(gates[..i]) && DistinctIds(gates[..i])
    {
      assert gates[..i + 1] == gates[..i] + [gates[i]];
      if gates[i].id in ids {
        return Some(DuplicateId(gates[i].id));
      }
      ids := ids + {gates[i].id};
    }
    assert gates[..|gates|] == gates;
    for i := 0 to |gates|
      invariant forall j | 0 <= j < i :: Resolves(gates, gates[j])
    {
      var gate := gates[i];
      for k := 0 to |gate.needs|
        invariant forall n | n in gate.needs[..k] :: n in ids
      {
        if gate.needs[k] !in ids {
          assert gate.needs[k] in Predecessors(gate);
          assert FirstUnresolved(gates, i);
          return Some(UnknownNeed(gate.id, gate.needs[k]));
        }
        assert gate.needs[..k + 1] == gate.needs[..k] + [gate.needs[k]];
      }
      assert gate.needs[..|gate.needs|] == gate.needs;
      for k := 0 to |gate.after|
        invariant forall n | n in gate.after[..k] :: n in ids
      {
        if gate.after[k] !in ids {
          assert gate.after[k] in Predecessors(gate);
          assert FirstUnresolved(gates, i);
          return Some(UnknownAfter(gate.id, gate.after[k]));
        }
        assert gate.after[..k + 1] == gate.after[..k] + [gate.after[k]];
      }
      assert gate.after[..|gate.after|] == gate.after;
    }
    var cycle := FindDependencyCycle(gates);
    if cycle.Some? {
      return Some(DependencyCycle(cycle.value));
    }
    return None;
  }
}
