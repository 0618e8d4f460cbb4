/** What `rewriteMarkdown` returns, on the destinations of the tree in reading order. */
module DocReport {
  import opened Prelude
  import opened DocSplice

  /** The nodes of a tree, each before its children and these from left to right. */
  function Preorder(tree: Node): seq<Node> {
    [tree] + Preorders(tree.children)
  }

  function Preorders(nodes: seq<Node>): seq<Node> {
    if nodes == [] then [] else Preorder(nodes[0]) + Preorders(nodes[1..])
  }

  /** A node whose destination gets a new URL. */
  ghost predicate Changes(resolver: Resolver, node: Node) {
    node.destination.Some? && resolver(node.destination.value).Change?
  }

  ghost function ChangeTest(resolver: Resolver): Node -> bool {
    node => Changes(resolver, node)
  }

  /** Its range and its new URL. */
  ghost predicate ChangedTo(resolver: Resolver, node: Node, r: Replacement) {
    && node.destination.Some?
    && r.start == node.destination.value.start && r.end == node.destination.value.end
    && resolver(node.destination.value) == Change(r.value)
  }

  ghost predicate IsMissing(resolver: Resolver, node: Node) {
    node.destination.Some? && resolver(node.destination.value).NoSuchPath?
  }

  /** No path is missing, and the `k`-th node that changes gives the `k`-th replacement. */
  ghost predicate Collected(resolver: Resolver, nodes: seq<Node>, rs: seq<Replacement>) {
    && (forall i | 0 <= i < |nodes| :: !IsMissing(resolver, nodes[i]))
    && |rs| == Count(nodes, ChangeTest(resolver))
    && forall i | 0 <= i < |nodes| && Changes(resolver, nodes[i]) ::
         Count(nodes[..i], ChangeTest(resolver)) < |rs| && ChangedTo(resolver, nodes[i], rs[Count(nodes[..i], ChangeTest(resolver))])
  }

  /** The first missing path is the error. */
  ghost predicate Failed(resolver: Resolver, nodes: seq<Node>, path: string) {
    exists i ::
      && 0 <= i < |nodes| && nodes[i].destination.Some? && resolver(nodes[i].destination.value) == NoSuchPath(path)
      && forall j | 0 <= j < i :: !IsMissing(resolver, nodes[j])
  }

  ghost predicate VisitReport(resolver: Resolver, nodes: seq<Node>, r: Result<seq<Replacement>, string>) {
    match r
    case Ok(rs) => Collected(resolver, nodes, rs)
    case Err(path) => Failed(resolver, nodes, path)
  }

  lemma NodesInOrder(resolver: Resolver, a: seq<Node>, b: seq<Node>, r: seq<Replacement>, t: seq<Replacement>)
    requires Collected(resolver, a, r) && Collected(resolver, b, t)
    ensures Collected(resolver, a + b, r + t)
  {
    var test := ChangeTest(resolver);
    CountConcat(a, b, test);
    forall i | 0 <= i < |a + b| && Changes(resolver, (a + b)[i])
      ensures Count((a + b)[..i], test) < |r + t| && ChangedTo(resolver, (a + b)[i], (r + t)[Count((a + b)[..i], test)])
    {
      if i < |a| {
        assert (a + b)[..i] == a[..i];
      } else {
        assert (a + b)[..i] == a + b[..i - |a|];
        CountConcat(a, b[..i - |a|], test);
      }
    }
  }

  lemma FailsFirst(resolver: Resolver, a: seq<Node>, b: seq<Node>, path: string)
    requires Failed(resolver, a, path)
    ensures Failed(resolver, a + b, path)
  {
    var i :| 0 <= i < |a| && a[i].destination.Some? && resolver(a[i].destination.value) == NoSuchPath(path)
             && forall j | 0 <= j < i :: !IsMissing(resolver, a[j]);
    assert (a + b)[i] == a[i];
  }

  lemma FailsSecond(resolver: Resolver, a: seq<Node>, b: seq<Node>, path: string)
    requires (forall j | 0 <= j < |a| :: !IsMissing(resolver, a[j])) && Failed(resolver, b, path)
    ensures Failed(resolver, a + b, path)
  {
    var i :| 0 <= i < |b| && b[i].destination.Some? && resolver(b[i].destination.value) == NoSuchPath(path)
             && forall j | 0 <= j < i :: !IsMissing(resolver, b[j]);
    assert (a + b)[|a| + i] == b[i];
    forall j | 0 <= j < |a| + i ensures !IsMissing(resolver, (a + b)[j]) { assert j >= |a| ==> (a + b)[j] == b[j - |a|]; }
  }

  lemma OneAfterOther(
    resolver: Resolver, a: seq<Node>, b: seq<Node>, x: Result<seq<Replacement>, string>, y: Result<seq<Replacement>, string>
  )
    requires VisitReport(resolver, a, x) && VisitReport(resolver, b, y)
    ensures VisitReport(resolver, a + b, Then(x, y))
  {
    if x.Err? { FailsFirst(resolver, a, b, x.error); }
    else if y.Err? { FailsSecond(resolver, a, b, y.error); }
    else { NodesInOrder(resolver, a, b, x.value, y.value); }
  }

  lemma OneNode(resolver: Resolver, node: Node)
    ensures VisitReport(resolver, [node], Rewrite(node, resolver))
  {
    var nodes := [node];
    assert nodes[0] == node && nodes[1..] == [] && nodes[..0] == [];
  }

  /** The visit gives every changing node its replacement once, in reading order, and fails at the first missing path. */
  lemma {:induction false} VisitIsTold(tree: Node, resolver: Resolver)
    ensures VisitReport(resolver, Preorder(tree), Visit(tree, resolver))
    decreases tree, 1
  {
    OneNode(resolver, tree);
    VisitAllIsTold(tree.children, resolver);
    OneAfterOther(resolver, [tree], Preorders(tree.children), Rewrite(tree, resolver), VisitAll(tree.children, resolver));
  }

  lemma {:induction false} VisitAllIsTold(nodes: seq<Node>, resolver: Resolver)
    ensures VisitReport(resolver, Preorders(nodes), VisitAll(nodes, resolver))
    decreases nodes, 0
  {
    if nodes != [] {
      VisitIsTold(nodes[0], resolver);
      VisitAllIsTold(nodes[1..], resolver);
      OneAfterOther(resolver, Preorder(nodes[0]), Preorders(nodes[1..]), Visit(nodes[0], resolver), VisitAll(nodes[1..], resolver));
    }
  }

  // ---- Disjoint destinations ----

  /** The destinations lie in the source and no two overlap. */
  ghost predicate Apart(length: nat, nodes: seq<Node>) {
    && (forall i | 0 <= i < |nodes| && nodes[i].destination.Some? ::
          nodes[i].destination.value.start < nodes[i].destination.value.end <= length)
    && forall i, j | 0 <= i < j < |nodes| && nodes[i].destination.Some? && nodes[j].destination.Some? ::
         ApartFrom(nodes[i].destination.value, nodes[j].destination.value)
  }

  ghost predicate ApartFrom(a: Destination, b: Destination) {
    a.end <= b.start || b.end <= a.start
  }

  /** The node behind the `k`-th replacement. */
  lemma {:induction false} NodeBehind(resolver: Resolver, nodes: seq<Node>, k: nat) returns (i: nat)
    requires k < Count(nodes, ChangeTest(resolver))
    ensures i < |nodes| && Changes(resolver, nodes[i]) && Count(nodes[..i], ChangeTest(resolver)) == k
  {
    var test := ChangeTest(resolver);
    if test(nodes[0]) && k == 0 {
      i := 0;
    } else {
      var n := NodeBehind(resolver, nodes[1..], if test(nodes[0]) then k - 1 else k);
      i := n + 1;
      assert nodes[..i][1..] == nodes[1..][..n];
    }
  }

  lemma CollectedIsDisjoint(length: nat, resolver: Resolver, nodes: seq<Node>, rs: seq<Replacement>)
    requires Apart(length, nodes) && Collected(resolver, nodes, rs)
    ensures Disjoint(length, rs)
  {
    forall k | 0 <= k < |rs| ensures rs[k].start < rs[k].end <= length {
      var i := NodeBehind(resolver, nodes, k);
      assert ChangedTo(resolver, nodes[i], rs[k]);
    }
    forall k, m | 0 <= k < m < |rs| ensures rs[k].end <= rs[m].start || rs[m].end <= rs[k].start {
      var i := NodeBehind(resolver, nodes, k);
      var j := NodeBehind(resolver, nodes, m);
      assert ChangedTo(resolver, nodes[i], rs[k]) && ChangedTo(resolver, nodes[j], rs[m]);
      if i < j {
        assert ApartFrom(nodes[i].destination.value, nodes[j].destination.value);
      } else {
        assert j < i;
        assert ApartFrom(nodes[j].destination.value, nodes[i].destination.value);
      }
    }
  }

  /**
   * What is returned: the first missing path in reading order, or the source with
   * every changing destination replaced, provided that no two of them overlap.
   */
  ghost predicate ProjectionReport(source: string, tree: Node, resolver: Resolver, r: Result<string, string>) {
    match r
    case Err(path) => Failed(resolver, Preorder(tree), path)
    case Ok(projected) =>
      exists rs ::
        && Collected(resolver, Preorder(tree), rs)
        && (Apart(|source|, Preorder(tree)) ==> projected == Substituted(source, Elements(rs), 0))
  }

  lemma ProjectionIsTold(source: string, tree: Node, resolver: Resolver, r: Result<string, string>)
    requires r == match Visit(tree, resolver)
                  case Ok(rs) => Ok(Project(source, rs))
                  case Err(path) => Err(path)
    ensures ProjectionReport(source, tree, resolver, r)
  {
    VisitIsTold(tree, resolver);
    if Visit(tree, resolver).Ok? && Apart(|source|, Preorder(tree)) {
      CollectedIsDisjoint(|source|, resolver, Preorder(tree), Visit(tree, resolver).value);
      ProjectSubstitutes(source, Visit(tree, resolver).value);
    }
  }
}
