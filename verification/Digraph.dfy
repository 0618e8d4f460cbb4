/**
 * Finite directed graphs given by successor lists. A listed successor need not
 * be a vertex; such dangling names take part in no cycle.
 */
module Digraph {
  import opened Prelude

  type Graph = map<string, seq<string>>

  ghost predicate Edge(g: Graph, a: string, b: string) {
    a in g && b in g[a]
  }

  ghost predicate IsPath(g: Graph, p: seq<string>) {
    forall i | 0 <= i < |p| - 1 :: Edge(g, p[i], p[i + 1])
  }

  ghost predicate IsCycle(g: Graph, c: seq<string>) {
    |c| >= 2 && c[0] == c[|c| - 1] && IsPath(g, c)
  }

  /** A cycle whose only repetition is its closing element. */
  ghost predicate IsSimpleCycle(g: Graph, c: seq<string>) {
    IsCycle(g, c) && Distinct(c[..|c| - 1])
  }

  ghost predicate Acyclic(g: Graph) {
    forall c :: !IsCycle(g, c)
  }

  /**
   * Ranks for a set of vertices that is closed under successors, each vertex
   * ranked above its successors.
   */
  ghost predicate Ranks(g: Graph, rank: map<string, nat>) {
    && rank.Keys <= g.Keys
    && (forall a | a in rank :: rank[a] < |rank|)
    && (forall a, b {:trigger Edge(g, a, b)} :: Edge(g, a, b) && a in rank && b in g ==> b in rank && rank[b] < rank[a])
  }

  ghost predicate TopologicalRank(g: Graph, rank: map<string, nat>) {
    Ranks(g, rank) && rank.Keys == g.Keys
  }

  /** Along any path of vertices the rank falls. */
  lemma {:induction false} PathDescends(g: Graph, rank: map<string, nat>, c: seq<string>, j: nat)
    requires TopologicalRank(g, rank) && IsPath(g, c)
    requires 0 < j < |c| && c[0] in g && c[|c| - 1] in g
    ensures c[j] in g && rank[c[j]] < rank[c[0]]
  {
    assert Edge(g, c[j - 1], c[j]);
    if j < |c| - 1 { assert Edge(g, c[j], c[j + 1]); }
    if j > 1 { PathDescends(g, rank, c, j - 1); }
  }

  lemma RankedIsAcyclic(g: Graph, rank: map<string, nat>)
    requires TopologicalRank(g, rank)
    ensures Acyclic(g)
  {
    forall c ensures !IsCycle(g, c) {
      if IsCycle(g, c) {
        assert Edge(g, c[0], c[1]);
        PathDescends(g, rank, c, |c| - 1);
        assert false;
      }
    }
  }

  ghost predicate HasSuccessorIn(g: Graph, u: set<string>, a: string) {
    exists b | b in u :: Edge(g, a, b)
  }

  /** A set of vertices none of which is without a successor in the set. */
  ghost predicate Endless(g: Graph, u: set<string>) {
    u <= g.Keys && forall a {:trigger HasSuccessorIn(g, u, a)} | a in u :: HasSuccessorIn(g, u, a)
  }

  lemma {:induction false} LongWalk(g: Graph, u: set<string>, start: string, n: nat) returns (p: seq<string>)
    requires Endless(g, u) && start in u
    ensures |p| == n + 1 && IsPath(g, p) && p[0] == start && forall i | 0 <= i < |p| :: p[i] in u
    decreases n
  {
    if n == 0 {
      p := [start];
    } else {
      assert HasSuccessorIn(g, u, start);
      var next :| next in u && Edge(g, start, next);
      var rest := LongWalk(g, u, next, n - 1);
      p := [start] + rest;
      forall i | 0 <= i < |p| - 1 ensures Edge(g, p[i], p[i + 1]) {
        if i > 0 { assert Edge(g, rest[i - 1], rest[i]); }
      }
    }
  }

  /** In a finite graph, walking forever inside a set closes a cycle there. */
  lemma EndlessHasCycle(g: Graph, u: set<string>, start: string) returns (c: seq<string>)
    requires Endless(g, u) && start in u
    ensures IsCycle(g, c) && forall i | 0 <= i < |c| :: c[i] in u
  {
    var p := LongWalk(g, u, start, |u|);
    if Distinct(p) {
      DistinctLength(p);
      SubsetSize(Elements(p), u);
      assert false;
    }
    var i, j :| 0 <= i < j < |p| && p[i] == p[j];
    c := p[i..j + 1];
    forall k | 0 <= k < |c| - 1 ensures Edge(g, c[k], c[k + 1]) {
      assert Edge(g, p[i + k], p[i + k + 1]);
    }
  }

  /** The vertices still unranked contain one all of whose successors are ranked. */
  lemma NextToRank(g: Graph, rank: map<string, nat>) returns (a: string)
    requires Acyclic(g) && Ranks(g, rank) && rank.Keys != g.Keys
    ensures a in g && a !in rank && forall b | b in g[a] && b in g :: b in rank
  {
    var u := g.Keys - rank.Keys;
    assert rank.Keys + u == g.Keys;
    var start :| start in u;
    if forall x {:trigger HasSuccessorIn(g, u, x)} | x in u :: HasSuccessorIn(g, u, x) {
      var c := EndlessHasCycle(g, u, start);
      assert false;
    }
    a :| a in u && !HasSuccessorIn(g, u, a);
    forall b | b in g[a] && b in g ensures b in rank {
      if b in u { assert Edge(g, a, b); }
    }
  }

  lemma {:induction false} ExtendRanks(g: Graph, rank: map<string, nat>) returns (total: map<string, nat>)
    requires Acyclic(g) && Ranks(g, rank)
    ensures TopologicalRank(g, total)
    decreases g.Keys - rank.Keys
  {
    if rank.Keys == g.Keys {
      total := rank;
    } else {
      var a := NextToRank(g, rank);
      var more := rank[a := |rank|];
      assert |more| == |rank| + 1;
      assert a in g.Keys - rank.Keys && a !in g.Keys - more.Keys;
      total := ExtendRanks(g, more);
    }
  }

  /** A finite graph is acyclic exactly when it can be ranked. */
  lemma AcyclicIffRanked(g: Graph)
    ensures Acyclic(g) <==> exists rank :: TopologicalRank(g, rank)
  {
    if Acyclic(g) {
      var rank := ExtendRanks(g, map[]);
    }
    if rank :| TopologicalRank(g, rank) {
      RankedIsAcyclic(g, rank);
    }
  }
}
