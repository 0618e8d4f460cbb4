/**
 * The link rewriting of `rewriteMarkdown` in scripts/project-doc-site.ts:
 * destinations collected over the tree, then spliced from the last one back.
 */
module DocSplice {
  import opened Prelude
  import opened Sorting
  import opened Text

  datatype Replacement = Replacement(start: nat, end: nat, value: string)

  /** A parsed node: its destination, if it is a link, an image or a definition, and its children. */
  datatype Node = Node(destination: Option<Destination>, children: seq<Node>)

  datatype Kind = Link | Image | Definition

  /** Where a URL stands, and what it is the URL of. */
  datatype Destination = Destination(kind: Kind, start: nat, end: nat, url: string)

  /** What becomes of a destination: it stays, it gets a new URL, or its path does not exist. */
  datatype Outcome = Keep | Change(url: string) | NoSuchPath(path: string)

  type Resolver = Destination -> Outcome

  // ---- Collecting ----

  function Rewrite(node: Node, resolver: Resolver): Result<seq<Replacement>, string> {
    if node.destination.None? then Ok([])
    else
      var d := node.destination.value;
      match resolver(d)
      case Keep => Ok([])
      case Change(url) => Ok([Replacement(d.start, d.end, url)])
      case NoSuchPath(path) => Err(path)
  }

  /** The first error wins, otherwise the lists are joined. */
  function Then(a: Result<seq<Replacement>, string>, b: Result<seq<Replacement>, string>): Result<seq<Replacement>, string> {
    if a.Err? then a else Prepend(a.value, b)
  }

  /** Pre-order over the tree; a missing path stops the visit. */
  function Visit(node: Node, resolver: Resolver): Result<seq<Replacement>, string> {
    Then(Rewrite(node, resolver), VisitAll(node.children, resolver))
  }

  function VisitAll(nodes: seq<Node>, resolver: Resolver): Result<seq<Replacement>, string> {
    if nodes == [] then Ok([]) else Then(Visit(nodes[0], resolver), VisitAll(nodes[1..], resolver))
  }

  /** A node somewhere in the tree. */
  ghost predicate Inside(tree: Node, node: Node) {
    tree == node || exists child | child in tree.children :: Inside(child, node)
  }

  /** The replacement a node asks for. */
  ghost predicate Asks(node: Node, resolver: Resolver, r: Replacement) {
    && node.destination.Some?
    && var d := node.destination.value; resolver(d) == Change(r.value) && r.start == d.start && r.end == d.end
  }

  ghost predicate Asked(tree: Node, resolver: Resolver, r: Replacement) {
    exists node {:trigger Inside(tree, node)} :: Inside(tree, node) && Asks(node, resolver, r)
  }

  ghost predicate Fails(node: Node, resolver: Resolver, path: string) {
    node.destination.Some? && resolver(node.destination.value) == NoSuchPath(path)
  }

  ghost predicate Failing(tree: Node, resolver: Resolver, path: string) {
    exists node {:trigger Inside(tree, node)} :: Inside(tree, node) && Fails(node, resolver, path)
  }

  lemma AskedByChild(tree: Node, resolver: Resolver, r: Replacement)
    ensures Asked(tree, resolver, r) <==> Asks(tree, resolver, r) || exists child | child in tree.children :: Asked(child, resolver, r)
  {
    if Asked(tree, resolver, r) && !Asks(tree, resolver, r) {
      var node :| Inside(tree, node) && Asks(node, resolver, r);
      var child :| child in tree.children && Inside(child, node);
      assert Asked(child, resolver, r);
    }
    if child :| child in tree.children && Asked(child, resolver, r) {
      var node :| Inside(child, node) && Asks(node, resolver, r);
      assert Inside(tree, node);
    }
    assert Inside(tree, tree);
  }

  lemma FailingChild(tree: Node, resolver: Resolver, path: string)
    ensures Failing(tree, resolver, path)
            <==> Fails(tree, resolver, path) || exists child | child in tree.children :: Failing(child, resolver, path)
  {
    if Failing(tree, resolver, path) && !Fails(tree, resolver, path) {
      var node :| Inside(tree, node) && Fails(node, resolver, path);
      var child :| child in tree.children && Inside(child, node);
      assert Failing(child, resolver, path);
    }
    if child :| child in tree.children && Failing(child, resolver, path) {
      var node :| Inside(child, node) && Fails(node, resolver, path);
      assert Inside(tree, node);
    }
    assert Inside(tree, tree);
  }

  /** The visit collects a replacement exactly when some node of the tree asks for it. */
  lemma {:induction false} VisitIsExact(tree: Node, resolver: Resolver, r: Replacement)
    requires Visit(tree, resolver).Ok?
    ensures r in Visit(tree, resolver).value <==> Asked(tree, resolver, r)
    decreases tree, 1
  {
    AskedByChild(tree, resolver, r);
    VisitAllIsExact(tree.children, resolver, r);
  }

  lemma {:induction false} VisitAllIsExact(nodes: seq<Node>, resolver: Resolver, r: Replacement)
    requires VisitAll(nodes, resolver).Ok?
    ensures r in VisitAll(nodes, resolver).value <==> exists node | node in nodes :: Asked(node, resolver, r)
    decreases nodes, 0
  {
    if nodes != [] {
      VisitIsExact(nodes[0], resolver, r);
      VisitAllIsExact(nodes[1..], resolver, r);
      assert nodes == [nodes[0]] + nodes[1..];
    }
  }

  /** The visit fails exactly when some node names a missing path, and the error is such a path. */
  lemma {:induction false} VisitFailsExactly(tree: Node, resolver: Resolver)
    ensures Visit(tree, resolver).Err? ==> Failing(tree, resolver, Visit(tree, resolver).error)
    ensures Visit(tree, resolver).Ok? ==> forall path :: !Failing(tree, resolver, path)
    decreases tree, 1
  {
    VisitAllFailsExactly(tree.children, resolver);
    forall path ensures Failing(tree, resolver, path)
                        <==> Fails(tree, resolver, path) || exists child | child in tree.children :: Failing(child, resolver, path)
    {
      FailingChild(tree, resolver, path);
    }
  }

  lemma {:induction false} VisitAllFailsExactly(nodes: seq<Node>, resolver: Resolver)
    ensures VisitAll(nodes, resolver).Err? ==> exists node | node in nodes :: Failing(node, resolver, VisitAll(nodes, resolver).error)
    ensures VisitAll(nodes, resolver).Ok? ==> forall node, path | node in nodes :: !Failing(node, resolver, path)
    decreases nodes, 0
  {
    if nodes != [] {
      VisitFailsExactly(nodes[0], resolver);
      VisitAllFailsExactly(nodes[1..], resolver);
      assert nodes == [nodes[0]] + nodes[1..];
    }
  }

  // ---- Splicing ----

  /** The ranges lie in the text, each non-empty, no two overlapping. */
  ghost predicate Disjoint(length: nat, rs: seq<Replacement>) {
    && (forall i | 0 <= i < |rs| :: rs[i].start < rs[i].end <= length)
    && (forall i, j | 0 <= i < j < |rs| :: rs[i].end <= rs[j].start || rs[j].end <= rs[i].start)
  }

  /** `slice(0, n)` and `slice(n)`, which stop at the end of the text. */
  function Head(text: string, n: nat): string {
    if n < |text| then text[..n] else text
  }

  function Tail(text: string, n: nat): string {
    if n < |text| then text[n..] else ""
  }

  function Splice(text: string, r: Replacement): string {
    Head(text, r.start) + r.value + Tail(text, r.end)
  }

  /** The text after the first `k` replacements. */
  function SpliceFirst(text: string, rs: seq<Replacement>, k: nat): string
    requires k <= |rs|
  {
    if k == 0 then text else Splice(SpliceFirst(text, rs, k - 1), rs[k - 1])
  }

  function LastFirst(): (Replacement, Replacement) -> bool {
    (a: Replacement, b: Replacement) => a.start >= b.start
  }

  function Project(source: string, rs: seq<Replacement>): string {
    var sorted := Sort(rs, LastFirst());
    SpliceFirst(source, sorted, |sorted|)
  }

  // ---- Simultaneous substitution ----

  ghost predicate StartsIn(rs: set<Replacement>, at: nat) {
    exists r | r in rs :: r.start == at
  }

  /**
   * Read the source once from a position: a range that starts there gives its
   * value and goes on at its end, any other character gives itself.
   */
  ghost function Substituted(source: string, rs: set<Replacement>, from: nat): string
    decreases |source| - from
  {
    if from >= |source| then ""
    else if StartsIn(rs, from) then
      var r :| r in rs && r.start == from;
      r.value + Substituted(source, rs, if r.end > from then r.end else from + 1)
    else [source[from]] + Substituted(source, rs, from + 1)
  }

  /** Between ranges the source is unchanged. */
  lemma {:induction false} GapIsUnchanged(source: string, rs: set<Replacement>, a: nat, b: nat)
    requires a <= b <= |source|
    requires forall r | r in rs :: !(a <= r.start < b)
    ensures Substituted(source, rs, a) == source[a..b] + Substituted(source, rs, b)
    decreases b - a
  {
    if a < b {
      assert !StartsIn(rs, a);
      GapIsUnchanged(source, rs, a + 1, b);
      var middle, rest := source[a + 1..b], Substituted(source, rs, b);
      assert source[a..b] == [source[a]] + middle;
      assert [source[a]] + (middle + rest) == [source[a]] + middle + rest;
    } else {
      assert source[a..b] == "";
    }
  }

  ghost predicate DisjointSet(length: nat, rs: set<Replacement>) {
    && (forall r | r in rs :: r.start < r.end <= length)
    && (forall r, t | r in rs && t in rs && r != t :: r.end <= t.start || t.end <= r.start)
  }

  /** At a range stands its new value. */
  lemma RangeHoldsValue(source: string, rs: set<Replacement>, r: Replacement)
    requires DisjointSet(|source|, rs) && r in rs
    ensures Substituted(source, rs, r.start) == r.value + Substituted(source, rs, r.end)
  {
    assert StartsIn(rs, r.start);
    forall t | t in rs && t.start == r.start ensures t == r { }
  }

  // ---- Splicing from the end is substitution ----

  /** The text with the ranges from `p` on replaced. */
  ghost function DoneFrom(source: string, rs: set<Replacement>, p: nat): string
    requires p <= |source|
  {
    source[..p] + Substituted(source, rs, p)
  }

  lemma SpliceOne(source: string, rs: set<Replacement>, r: Replacement, p: nat)
    requires DisjointSet(|source|, rs) && r in rs && r.end <= p <= |source|
    requires forall t | t in rs :: !(r.end <= t.start < p)
    ensures Splice(DoneFrom(source, rs, p), r) == DoneFrom(source, rs, r.start)
  {
    var rest := Substituted(source, rs, p);
    GapIsUnchanged(source, rs, r.end, p);
    RangeHoldsValue(source, rs, r);
    CutText(source, rest, r, p);
    Join(source[..r.start], r.value, source[r.end..p] + rest);
  }

  lemma AllDone(source: string, rs: set<Replacement>, p: nat)
    requires p <= |source| && forall t | t in rs :: t.start >= p
    ensures DoneFrom(source, rs, p) == Substituted(source, rs, 0)
  {
    GapIsUnchanged(source, rs, 0, p);
    assert source[0..p] == source[..p];
  }

  lemma CutText(source: string, rest: string, r: Replacement, p: nat)
    requires r.start < r.end <= p <= |source|
    ensures Head(source[..p] + rest, r.start) == source[..r.start]
    ensures Tail(source[..p] + rest, r.end) == source[r.end..p] + rest
  {
  }

  /** Where the part already spliced begins, with the first `k` ranges done. */
  function Frontier(length: nat, all: seq<Replacement>, k: nat): nat
    requires k <= |all|
  {
    if k == 0 then length else all[k - 1].start
  }

  /** No range starts between the next one to splice and the part already spliced. */
  lemma NextIsFree(length: nat, all: seq<Replacement>, k: nat)
    requires Disjoint(length, all) && Sorted(all, LastFirst()) && k < |all|
    ensures all[k].end <= Frontier(length, all, k) <= length
    ensures forall t | t in Elements(all) :: !(all[k].end <= t.start < Frontier(length, all, k))
  {
    var p := Frontier(length, all, k);
    assert k > 0 ==> LastFirst()(all[k - 1], all[k]);
    forall t | t in Elements(all) ensures !(all[k].end <= t.start < p) {
      var j :| 0 <= j < |all| && all[j] == t;
      assert j < k - 1 ==> LastFirst()(all[j], all[k - 1]);
      assert k < j ==> LastFirst()(all[k], all[j]);
    }
  }

  /** With every range spliced, none starts before the part already spliced. */
  lemma NothingIsLeft(length: nat, all: seq<Replacement>)
    requires Disjoint(length, all) && Sorted(all, LastFirst())
    ensures Frontier(length, all, |all|) <= length
    ensures forall t | t in Elements(all) :: t.start >= Frontier(length, all, |all|)
  {
    forall t | t in Elements(all) ensures t.start >= Frontier(length, all, |all|) {
      var j :| 0 <= j < |all| && all[j] == t;
      assert j < |all| - 1 ==> LastFirst()(all[j], all[|all| - 1]);
    }
  }

  /** After `k` splices the ranges from the frontier on are replaced, and nothing else is changed. */
  lemma {:induction false} SpliceSorted(source: string, all: seq<Replacement>, k: nat)
    requires Disjoint(|source|, all) && Sorted(all, LastFirst()) && k <= |all|
    ensures Frontier(|source|, all, k) <= |source|
    ensures SpliceFirst(source, all, k) == DoneFrom(source, Elements(all), Frontier(|source|, all, k))
  {
    if k == 0 {
      assert source[..|source|] + "" == source;
    } else {
      SpliceSorted(source, all, k - 1);
      DisjointElements(|source|, all);
      NextIsFree(|source|, all, k - 1);
      SpliceOne(source, Elements(all), all[k - 1], Frontier(|source|, all, k - 1));
    }
  }

  lemma DisjointElements(length: nat, all: seq<Replacement>)
    requires Disjoint(length, all)
    ensures DisjointSet(length, Elements(all))
  {
    forall r, t | r in all && t in all && r != t ensures r.end <= t.start || t.end <= r.start {
      var i :| 0 <= i < |all| && all[i] == r;
      var j :| 0 <= j < |all| && all[j] == t;
    }
  }

  // ---- The collected order does not matter ----

  /** Disjointness only depends on which ranges there are, each once. */
  lemma DisjointReordered(length: nat, a: seq<Replacement>, b: seq<Replacement>)
    requires Disjoint(length, a) && multiset(a) == multiset(b)
    ensures Disjoint(length, b) && Elements(a) == Elements(b)
  {
    SameMembers(a, b);
    DisjointElements(length, a);
    forall i | 0 <= i < |b| ensures b[i].start < b[i].end <= length { assert b[i] in b; }
    forall i, j | 0 <= i < j < |b| ensures b[i].end <= b[j].start || b[j].end <= b[i].start {
      assert b[i] in b && b[j] in b;
      if b[i] == b[j] {
        RepeatCountsTwice(b, i, j);
        CountedTwiceRepeats(a, b[i]);
      }
    }
  }

  lemma RepeatCountsTwice<T>(s: seq<T>, i: nat, j: nat)
    requires i < j < |s| && s[i] == s[j]
    ensures multiset(s)[s[i]] >= 2
  {
    assert s == s[..j] + s[j..];
    assert s[..j][i] in s[..j] && s[j..][0] in s[j..];
  }

  lemma CountedTwiceRepeats<T>(s: seq<T>, x: T)
    requires multiset(s)[x] >= 2
    ensures exists i, j :: 0 <= i < j < |s| && s[i] == x && s[j] == x
  {
    assert x in multiset(s);
    var k :| 0 <= k < |s| && s[k] == x;
    var rest := s[..k] + s[k + 1..];
    assert s == s[..k] + [s[k]] + s[k + 1..];
    assert x in multiset(rest);
    var m :| 0 <= m < |rest| && rest[m] == x;
    if m < k { assert s[m] == x; } else { assert s[m + 1] == x; }
  }

  lemma LastFirstIsTotal()
    ensures Total(LastFirst())
  {
  }

  /** Splicing disjoint ranges from the last one back is simultaneous substitution. */
  lemma ProjectSubstitutes(source: string, rs: seq<Replacement>)
    requires Disjoint(|source|, rs)
    ensures DisjointSet(|source|, Elements(rs))
    ensures Project(source, rs) == Substituted(source, Elements(rs), 0)
  {
    var sorted := Sort(rs, LastFirst());
    LastFirstIsTotal();
    SortSorts(rs, LastFirst());
    SortPermutes(rs, LastFirst());
    DisjointReordered(|source|, rs, sorted);
    DisjointElements(|source|, rs);
    SpliceFromEnd(source, sorted);
  }

  lemma SpliceFromEnd(source: string, sorted: seq<Replacement>)
    requires Disjoint(|source|, sorted) && Sorted(sorted, LastFirst())
    ensures SpliceFirst(source, sorted, |sorted|) == Substituted(source, Elements(sorted), 0)
  {
    SpliceSorted(source, sorted, |sorted|);
    NothingIsLeft(|source|, sorted);
    AllDone(source, Elements(sorted), Frontier(|source|, sorted, |sorted|));
  }

  /** The result does not depend on the order in which the tree visit collected the ranges. */
  lemma CollectedOrderDoesNotMatter(source: string, a: seq<Replacement>, b: seq<Replacement>)
    requires Disjoint(|source|, a) && multiset(a) == multiset(b)
    ensures Project(source, a) == Project(source, b)
  {
    DisjointReordered(|source|, a, b);
    ProjectSubstitutes(source, a);
    ProjectSubstitutes(source, b);
  }

  // ---- The code ----

  /** The tree visit, pushing onto the replacements collected so far. */
  method Collect(node: Node, resolver: Resolver, before: seq<Replacement>) returns (r: Result<seq<Replacement>, string>)
    ensures r == Prepend(before, Visit(node, resolver))
  {
    var own := Rewrite(node, resolver);
    if own.Err? {
      return own;
    }
    var collected := before + own.value;
    PrependTwice(before, own.value, VisitAll(node.children, resolver));
    assert node.children[0..] == node.children;
    ghost var all := Prepend(before, Visit(node, resolver));
    var i := 0;
    while i < |node.children|
      invariant i <= |node.children|
      invariant Prepend(collected, VisitAll(node.children[i..], resolver)) == all
    {
      VisitStep(collected, node.children, i, resolver);
      r := Collect(node.children[i], resolver, collected);
      if r.Err? {
        return;
      }
      collected := r.value;
      i := i + 1;
    }
    r := Ok(collected);
    assert collected + [] == collected;
  }

  lemma VisitStep(before: seq<Replacement>, nodes: seq<Node>, i: nat, resolver: Resolver)
    requires i < |nodes|
    ensures var child := Prepend(before, Visit(nodes[i], resolver));
            Prepend(before, VisitAll(nodes[i..], resolver))
            == if child.Err? then child else Prepend(child.value, VisitAll(nodes[i + 1..], resolver))
  {
    assert nodes[i..][1..] == nodes[i + 1..];
    if Visit(nodes[i], resolver).Ok? {
      PrependTwice(before, Visit(nodes[i], resolver).value, VisitAll(nodes[i + 1..], resolver));
    }
  }

  method ApplyInOrder(source: string, rs: seq<Replacement>) returns (projected: string)
    ensures projected == SpliceFirst(source, rs, |rs|)
  {
    projected := source;
    for i := 0 to |rs|
      invariant projected == SpliceFirst(source, rs, i)
    {
      projected := Head(projected, rs[i].start) + rs[i].value + Tail(projected, rs[i].end);
    }
  }

  /** `rewriteMarkdown`, for a parsed tree and a resolver of its destinations. */
  method RewriteMarkdown(source: string, tree: Node, resolver: Resolver) returns (r: Result<string, string>)
    ensures r == match Visit(tree, resolver)
                 case Ok(rs) => Ok(Project(source, rs))
                 case Err(path) => Err(path)
  {
    var replacements := Collect(tree, resolver, []);
    PrependNothing(Visit(tree, resolver));
    if replacements.Err? {
      return Err(replacements.error);
    }
    var projected := ApplyInOrder(source, Sort(replacements.value, LastFirst()));
    r := Ok(projected);
  }
}
