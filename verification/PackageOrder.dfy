/** What `topoSort` of scripts/package-graph.ts promises about its order and its error. */
module PackageOrder {
  import opened Prelude
  import opened Digraph
  import opened Sorting
  import opened PackageGraph

  /** The loop's situation: some names placed, the rest of the packages still to place. */
  ghost predicate Underway(all: seq<Package>, remaining: seq<Package>, placed: set<string>) {
    && DistinctShorts(all) && DistinctShorts(remaining)
    && (forall p | p in remaining :: p in all)
    && placed + Shorts(remaining) == Shorts(all)
    && placed !! Shorts(remaining)
  }

  lemma FilterKeepsDistinct(s: seq<Package>, p: Package -> bool)
    requires DistinctShorts(s)
    ensures DistinctShorts(Filter(s, p))
  {
    if s != [] {
      assert s == [s[0]] + s[1..];
      DistinctCons(s[0], s[1..]);
      FilterKeepsDistinct(s[1..], p);
      DistinctCons(s[0], Filter(s[1..], p));
    }
  }

  lemma SameShort(packages: seq<Package>, a: Package, b: Package)
    requires DistinctShorts(packages) && a in packages && b in packages && a.short == b.short
    ensures a == b
  {
    var i :| 0 <= i < |packages| && packages[i] == a;
    var j :| 0 <= j < |packages| && packages[j] == b;
    assert i == j;
  }

  /** A layer splits the remaining packages into the ready ones and the others. */
  lemma LayerSplits(remaining: seq<Package>, placed: set<string>, le: (Package, Package) -> bool, p: Package)
    requires DistinctShorts(remaining) && p in remaining
    ensures p.short in Shorts(Layer(remaining, placed, le)) <==> ReadyTest(placed)(p)
    ensures p in Rest(remaining, Layer(remaining, placed, le)) <==> !ReadyTest(placed)(p)
  {
    LayerMembers(remaining, placed, le);
    var layer := Layer(remaining, placed, le);
    if q :| q in layer && q.short == p.short { SameShort(remaining, p, q); }
  }

  lemma UnderwayStep(all: seq<Package>, remaining: seq<Package>, placed: set<string>, le: (Package, Package) -> bool)
    requires Underway(all, remaining, placed)
    ensures var layer := Layer(remaining, placed, le);
            Underway(all, Rest(remaining, layer), placed + Shorts(layer))
  {
    var layer := Layer(remaining, placed, le);
    var rest := Rest(remaining, layer);
    FilterKeepsDistinct(remaining, NotIn(Shorts(layer)));
    LayerMembers(remaining, placed, le);
    assert Shorts(layer) + Shorts(rest) == Shorts(remaining) by {
      forall p | p in remaining ensures p.short in Shorts(layer) || p.short in Shorts(rest) {
        LayerSplits(remaining, placed, le, p);
      }
    }
  }

  // ---- The error names exactly the trapped packages ----

  lemma ReadyIsUntrapped(all: seq<Package>, placed: set<string>, p: Package)
    requires DistinctShorts(all) && p in all && ReadyTest(placed)(p)
    requires forall x | x in placed :: !Trapped(GraphOf(all), x)
    ensures !Trapped(GraphOf(all), p.short)
  {
    GraphLists(all, p);
    UntrappedStep(GraphOf(all), p.short);
  }

  lemma NoneReadyIsTrapped(all: seq<Package>, remaining: seq<Package>, placed: set<string>, le: (Package, Package) -> bool, p: Package)
    requires Underway(all, remaining, placed) && Layer(remaining, placed, le) == [] && p in remaining
    ensures Trapped(GraphOf(all), p.short)
  {
    var g, u := GraphOf(all), Shorts(remaining);
    LayerMembers(remaining, placed, le);
    forall x {:trigger Blocked(g, u, x)} | x in u ensures Blocked(g, u, x) {
      var q :| q in remaining && q.short == x;
      GraphLists(all, q);
      assert !ReadyTest(placed)(q);
    }
    BlockedAreTrapped(g, u, p.short);
  }

  lemma {:induction false} ErrorNamesTrapped(all: seq<Package>, remaining: seq<Package>, placed: set<string>, le: (Package, Package) -> bool)
    requires Underway(all, remaining, placed)
    requires forall x | x in placed :: !Trapped(GraphOf(all), x)
    ensures forall x | x in Shorts(all) :: x in StuckNames(Arrange(remaining, placed, le)) <==> Trapped(GraphOf(all), x)
    ensures Arrange(remaining, placed, le).Err? ==> StuckNames(Arrange(remaining, placed, le)) != {}
    ensures StuckNames(Arrange(remaining, placed, le)) <= Shorts(remaining)
    decreases |remaining|
  {
    if remaining != [] {
      var layer := Layer(remaining, placed, le);
      LayerMembers(remaining, placed, le);
      if layer == [] {
        NamesAreShorts(remaining);
        assert remaining[0].short in Shorts(remaining);
        forall p | p in remaining ensures Trapped(GraphOf(all), p.short) {
          NoneReadyIsTrapped(all, remaining, placed, le, p);
        }
      } else {
        forall p | p in layer ensures !Trapped(GraphOf(all), p.short) {
          ReadyIsUntrapped(all, placed, p);
        }
        RestShrinks(remaining, placed, le);
        UnderwayStep(all, remaining, placed, le);
        ErrorNamesTrapped(all, Rest(remaining, layer), placed + Shorts(layer), le);
      }
    }
  }

  lemma NamesAreShorts(packages: seq<Package>)
    ensures (set x | x in Names(packages)) == Shorts(packages)
  {
    forall p | p in packages ensures p.short in Names(packages) {
      var i :| 0 <= i < |packages| && packages[i] == p;
      assert Names(packages)[i] == p.short;
    }
  }

  /** The sort fails exactly when some package reaches a cycle or an unknown name, and lists all of those. */
  lemma ThrowsExactlyWhenTrapped(packages: seq<Package>, groups: seq<string>, collate: Collation)
    ensures var g := GraphOf(Entries(packages));
            && g.Keys == Shorts(packages)
            && (TopoOrder(packages, groups, collate).Err? <==> exists x :: x in g && Trapped(g, x))
            && (forall x | x in g :: x in StuckNames(TopoOrder(packages, groups, collate)) <==> Trapped(g, x))
  {
    EntriesAreDistinct(packages);
    ErrorNamesTrapped(Entries(packages), Entries(packages), {}, AtMost(groups, collate));
  }

  /** Every dependency is itself a package. */
  ghost predicate Closed(g: Graph) {
    forall x, d {:trigger Edge(g, x, d)} | Edge(g, x, d) :: d in g
  }

  lemma TrapBreaksGraph(g: Graph, x: string)
    requires x in g && Trapped(g, x) && Closed(g)
    ensures !Acyclic(g)
  {
    var p :| Trap(g, p) && p[0] == x;
    var n := |p|;
    assert n >= 2 ==> Edge(g, p[n - 2], p[n - 1]);
    var i :| 0 <= i < n - 1 && p[i] == p[n - 1];
    var c := p[i..];
    forall k | 0 <= k < |c| - 1 ensures Edge(g, c[k], c[k + 1]) { assert Edge(g, p[i + k], p[i + k + 1]); }
    assert IsCycle(g, c);
  }

  lemma CycleIsTrapped(g: Graph, c: seq<string>)
    requires IsCycle(g, c)
    ensures c[0] in g && Trapped(g, c[0])
  {
    assert Edge(g, c[0], c[1]);
    assert c[0] == c[|c| - 1];
    assert Trap(g, c);
  }

  lemma UnknownIsTrapped(g: Graph, x: string, d: string)
    requires Edge(g, x, d) && d !in g
    ensures Trapped(g, x)
  {
    var p := [x, d];
    assert IsPath(g, p);
    assert Trap(g, p) && p[0] == x;
  }

  lemma NothingTrapped(g: Graph)
    ensures (exists x :: x in g && Trapped(g, x)) <==> !(Acyclic(g) && Closed(g))
  {
    if !Acyclic(g) {
      var c :| IsCycle(g, c);
      CycleIsTrapped(g, c);
    } else if !Closed(g) {
      var x, d :| Edge(g, x, d) && d !in g;
      UnknownIsTrapped(g, x, d);
    } else if x :| x in g && Trapped(g, x) {
      TrapBreaksGraph(g, x);
    }
  }

  /** In particular a result exists exactly when every dependency is a package and there is no cycle. */
  lemma SucceedsExactlyWhenAcyclic(packages: seq<Package>, groups: seq<string>, collate: Collation)
    ensures var g := GraphOf(Entries(packages));
            TopoOrder(packages, groups, collate).Ok? <==> Acyclic(g) && Closed(g)
  {
    ThrowsExactlyWhenTrapped(packages, groups, collate);
    NothingTrapped(GraphOf(Entries(packages)));
  }

  // ---- The order of a result ----

  /** Depth in the dependency graph: one more than the deepest dependency, zero without any. */
  ghost predicate DepthAt(depth: map<string, nat>, p: Package) {
    && p.short in depth
    && (forall d | d in p.deps :: d in depth && depth[d] < depth[p.short])
    && (depth[p.short] > 0 ==> exists d | d in p.deps :: d in depth && depth[d] == depth[p.short] - 1)
  }

  ghost predicate IsDepth(all: seq<Package>, depth: map<string, nat>) {
    forall p {:trigger DepthAt(depth, p)} | p in all :: DepthAt(depth, p)
  }

  /** First by depth, then by the comparator. */
  function ByDepth(depth: map<string, nat>, le: (Package, Package) -> bool): (Package, Package) -> bool {
    (a: Package, b: Package) =>
      a.short in depth && b.short in depth
      && (depth[a.short] < depth[b.short] || (depth[a.short] == depth[b.short] && le(a, b)))
  }

  /** Level `n` of the loop: names placed at depths below `n`, and what that says of the rest. */
  ghost predicate AtLevel(remaining: seq<Package>, depth: map<string, nat>, n: nat) {
    && (forall x | x in depth :: depth[x] < n)
    && (forall p | p in remaining && n > 0 :: !ReadyTest(set x | x in depth && depth[x] < n - 1)(p))
  }

  function Deepen(depth: map<string, nat>, layer: seq<Package>, n: nat): (r: map<string, nat>) {
    map x | x in depth.Keys + Shorts(layer) :: if x in depth then depth[x] else n
  }

  lemma LayerDepth(remaining: seq<Package>, depth: map<string, nat>, n: nat, le: (Package, Package) -> bool, p: Package)
    requires AtLevel(remaining, depth, n) && depth.Keys !! Shorts(remaining)
    requires p in Layer(remaining, depth.Keys, le)
    ensures DepthAt(Deepen(depth, Layer(remaining, depth.Keys, le), n), p)
    ensures Deepen(depth, Layer(remaining, depth.Keys, le), n)[p.short] == n
  {
    LayerMembers(remaining, depth.Keys, le);
    assert ReadyTest(depth.Keys)(p);
    if n > 0 {
      assert !ReadyTest(set x | x in depth && depth[x] < n - 1)(p);
      var d :| d in p.deps && d !in (set x | x in depth && depth[x] < n - 1);
      assert depth[d] == n - 1;
    }
  }

  lemma DepthExtends(depth: map<string, nat>, more: map<string, nat>, p: Package)
    requires DepthAt(depth, p) && forall x | x in depth :: x in more && more[x] == depth[x]
    ensures DepthAt(more, p)
  {
  }

  lemma NextLevel(remaining: seq<Package>, depth: map<string, nat>, n: nat, le: (Package, Package) -> bool)
    requires AtLevel(remaining, depth, n) && depth.Keys !! Shorts(remaining) && DistinctShorts(remaining)
    ensures var layer := Layer(remaining, depth.Keys, le);
            AtLevel(Rest(remaining, layer), Deepen(depth, layer, n), n + 1)
  {
    var layer := Layer(remaining, depth.Keys, le);
    var more := Deepen(depth, layer, n);
    LayerMembers(remaining, depth.Keys, le);
    assert (set x | x in more && more[x] < n) == depth.Keys;
    forall p | p in Rest(remaining, layer) ensures !ReadyTest(depth.Keys)(p) {
      LayerSplits(remaining, depth.Keys, le, p);
    }
  }

  lemma LayerPermutes(remaining: seq<Package>, placed: set<string>, le: (Package, Package) -> bool)
    requires DistinctShorts(remaining)
    ensures var layer := Layer(remaining, placed, le);
            multiset(layer) + multiset(Rest(remaining, layer)) == multiset(remaining)
  {
    var layer := Layer(remaining, placed, le);
    SortPermutes(Filter(remaining, ReadyTest(placed)), le);
    forall p ensures multiset(layer)[p] + multiset(Rest(remaining, layer))[p] == multiset(remaining)[p] {
      FilterCounts(remaining, ReadyTest(placed), p);
      FilterCounts(remaining, NotIn(Shorts(layer)), p);
      if p in remaining { LayerSplits(remaining, placed, le, p); }
    }
  }

  lemma LayersConcatenate(
    layer: seq<Package>, rest: seq<Package>, depth: map<string, nat>, n: nat, le: (Package, Package) -> bool)
    requires Sorted(layer, le) && forall p | p in layer :: p.short in depth && depth[p.short] == n
    requires Sorted(rest, ByDepth(depth, le)) && forall p | p in rest :: p.short in depth && depth[p.short] > n
    ensures Sorted(layer + rest, ByDepth(depth, le))
  {
    var all := layer + rest;
    forall i, j | 0 <= i < j < |all| ensures ByDepth(depth, le)(all[i], all[j]) {
      assert i < |layer| ==> all[i] in layer;
      assert j < |layer| ==> all[j] in layer;
      assert j >= |layer| ==> all[j] in rest;
      assert i >= |layer| ==> ByDepth(depth, le)(rest[i - |layer|], rest[j - |layer|]);
    }
  }

  lemma {:induction false} ArrangeByDepth(
    all: seq<Package>, remaining: seq<Package>, depth: map<string, nat>, n: nat, le: (Package, Package) -> bool)
    returns (total: map<string, nat>)
    requires Underway(all, remaining, depth.Keys) && AtLevel(remaining, depth, n) && Total(le)
    requires forall p {:trigger DepthAt(depth, p)} | p in all && p.short in depth :: DepthAt(depth, p)
    requires Arrange(remaining, depth.Keys, le).Ok?
    ensures IsDepth(all, total) && forall x | x in depth :: x in total && total[x] == depth[x]
    ensures forall p | p in remaining :: p.short in total && total[p.short] >= n
    ensures Sorted(Arrange(remaining, depth.Keys, le).value, ByDepth(total, le))
    ensures multiset(Arrange(remaining, depth.Keys, le).value) == multiset(remaining)
    decreases |remaining|
  {
    if remaining == [] {
      total := depth;
    } else {
      var layer := Layer(remaining, depth.Keys, le);
      var rest, more := Rest(remaining, layer), Deepen(depth, layer, n);
      RestShrinks(remaining, depth.Keys, le);
      UnderwayStep(all, remaining, depth.Keys, le);
      NextLevel(remaining, depth, n, le);
      forall p {:trigger DepthAt(more, p)} | p in all && p.short in more ensures DepthAt(more, p) {
        if p.short in depth {
          DepthExtends(depth, more, p);
        } else {
          LayerMember(all, remaining, layer, depth.Keys, le, p);
          LayerDepth(remaining, depth, n, le, p);
        }
      }
      total := ArrangeByDepth(all, rest, more, n + 1, le);
      LayerPermutes(remaining, depth.Keys, le);
      SortSorts(Filter(remaining, ReadyTest(depth.Keys)), le);
      LayerMembers(remaining, depth.Keys, le);
      SameMembers(Arrange(rest, more.Keys, le).value, rest);
      forall p | p in layer ensures p.short in more && more[p.short] == n {
        LayerDepth(remaining, depth, n, le, p);
      }
      forall p | p in remaining ensures p.short in total && total[p.short] >= n {
        LayerSplits(remaining, depth.Keys, le, p);
        assert p in layer || p in rest;
      }
      LayersConcatenate(layer, Arrange(rest, more.Keys, le).value, total, n, le);
    }
  }

  lemma LayerMember(
    all: seq<Package>, remaining: seq<Package>, layer: seq<Package>, placed: set<string>, le: (Package, Package) -> bool, p: Package)
    requires Underway(all, remaining, placed) && layer == Layer(remaining, placed, le)
    requires p in all && p.short in Shorts(layer)
    ensures p in layer
  {
    LayerMembers(remaining, placed, le);
    var q :| q in layer && q.short == p.short;
    SameShort(all, p, q);
  }

  lemma ArrangedByDepth(packages: seq<Package>, le: (Package, Package) -> bool) returns (depth: map<string, nat>)
    requires Total(le) && Arrange(Entries(packages), {}, le).Ok?
    ensures IsDepth(Entries(packages), depth)
    ensures multiset(Arrange(Entries(packages), {}, le).value) == multiset(Entries(packages))
    ensures Sorted(Arrange(Entries(packages), {}, le).value, ByDepth(depth, le))
  {
    EntriesAreDistinct(packages);
    depth := map[];
    assert depth.Keys == {};
    depth := ArrangeByDepth(Entries(packages), Entries(packages), depth, 0, le);
  }

  /** A result lists every package once, by depth, and by group and name within a depth. */
  lemma ResultIsByDepth(packages: seq<Package>, groups: seq<string>, collate: Collation) returns (depth: map<string, nat>)
    requires TotalCollation(collate) && TopoOrder(packages, groups, collate).Ok?
    ensures IsDepth(Entries(packages), depth)
    ensures multiset(TopoOrder(packages, groups, collate).value) == multiset(Entries(packages))
    ensures Sorted(TopoOrder(packages, groups, collate).value, ByDepth(depth, AtMost(groups, collate)))
  {
    CompareIsTotal(groups, collate);
    depth := ArrangedByDepth(packages, AtMost(groups, collate));
  }

  lemma ShallowerComesFirst(
    out: seq<Package>, depth: map<string, nat>, le: (Package, Package) -> bool, i: nat, p: Package) returns (j: nat)
    requires Sorted(out, ByDepth(depth, le)) && i < |out| && p in out
    requires out[i].short in depth && p.short in depth && depth[p.short] < depth[out[i].short]
    ensures j < i && out[j] == p
  {
    assert forall k | i < k < |out| :: ByDepth(depth, le)(out[i], out[k]);
    j :| j < |out| && out[j] == p;
  }

  /** Every dependency stands before its dependent. */
  lemma DependenciesComeFirst(packages: seq<Package>, groups: seq<string>, collate: Collation, i: nat, d: string)
    returns (j: nat)
    requires TotalCollation(collate) && TopoOrder(packages, groups, collate).Ok?
    requires i < |TopoOrder(packages, groups, collate).value| && d in TopoOrder(packages, groups, collate).value[i].deps
    ensures j < i && TopoOrder(packages, groups, collate).value[j].short == d
  {
    var out, all := TopoOrder(packages, groups, collate).value, Entries(packages);
    var depth := ResultIsByDepth(packages, groups, collate);
    SucceedsExactlyWhenAcyclic(packages, groups, collate);
    j := DependencyIsEarlier(packages, out, depth, AtMost(groups, collate), i, d);
  }

  lemma DependencyIsEarlier(
    packages: seq<Package>, out: seq<Package>, depth: map<string, nat>, le: (Package, Package) -> bool, i: nat, d: string)
    returns (j: nat)
    requires IsDepth(Entries(packages), depth) && multiset(out) == multiset(Entries(packages))
    requires Sorted(out, ByDepth(depth, le)) && Closed(GraphOf(Entries(packages)))
    requires i < |out| && d in out[i].deps
    ensures j < i && out[j].short == d
  {
    var all := Entries(packages);
    EntriesAreDistinct(packages);
    SameMembers(out, all);
    assert out[i] in all;
    assert DepthAt(depth, out[i]);
    GraphLists(all, out[i]);
    assert Edge(GraphOf(all), out[i].short, d);
    var p :| p in all && p.short == d;
    j := ShallowerComesFirst(out, depth, le, i, p);
  }

  // ---- The input order does not matter ----

  lemma {:induction false} ArrangeIgnoresOrder(a: seq<Package>, b: seq<Package>, placed: set<string>, le: (Package, Package) -> bool)
    requires DistinctShorts(a) && multiset(a) == multiset(b) && Total(le)
    requires TiesShareName(le)
    ensures match Arrange(a, placed, le)
            case Ok(out) => Arrange(b, placed, le) == Ok(out)
            case Err(_) => Arrange(b, placed, le).Err? && StuckNames(Arrange(a, placed, le)) == StuckNames(Arrange(b, placed, le))
    decreases |a|
  {
    assert |multiset(a)| == |multiset(b)|;
    if a != [] {
      var layer := Layer(a, placed, le);
      SameMembers(a, b);
      SameFiltered(a, b, ReadyTest(placed));
      assert Strict(Filter(a, ReadyTest(placed)), le) by {
        forall x, y | x in a && y in a && x.short == y.short ensures x == y { SameShort(a, x, y); }
      }
      SortIgnoresOrder(Filter(a, ReadyTest(placed)), Filter(b, ReadyTest(placed)), le);
      if layer == [] {
        NamesAreShorts(a);
        NamesAreShorts(b);
      } else {
        RestShrinks(a, placed, le);
        SameFiltered(a, b, NotIn(Shorts(layer)));
        FilterKeepsDistinct(a, NotIn(Shorts(layer)));
        ArrangeIgnoresOrder(Rest(a, layer), Rest(b, layer), placed + Shorts(layer), le);
      }
    }
  }

  lemma SameFiltered(a: seq<Package>, b: seq<Package>, p: Package -> bool)
    requires multiset(a) == multiset(b)
    ensures multiset(Filter(a, p)) == multiset(Filter(b, p))
  {
    forall x ensures multiset(Filter(a, p))[x] == multiset(Filter(b, p))[x] {
      FilterCounts(a, p, x);
      FilterCounts(b, p, x);
    }
  }

  /** The same packages listed in another order give the same output, or an error over the same names. */
  lemma InputOrderDoesNotMatter(a: seq<Package>, b: seq<Package>, groups: seq<string>, collate: Collation)
    requires TotalCollation(collate) && DistinctShorts(a) && DistinctShorts(b) && multiset(a) == multiset(b)
    ensures match TopoOrder(a, groups, collate)
            case Ok(out) => TopoOrder(b, groups, collate) == Ok(out)
            case Err(_) =>
              TopoOrder(b, groups, collate).Err?
              && StuckNames(TopoOrder(a, groups, collate)) == StuckNames(TopoOrder(b, groups, collate))
  {
    CompareIsTotal(groups, collate);
    CompareTies(groups, collate);
    DistinctEntries(a);
    DistinctEntries(b);
    ArrangeIgnoresOrder(a, b, {}, AtMost(groups, collate));
  }

  // ---- The loop ----

  lemma TakeMore(layer: seq<Package>, k: nat, remaining: seq<Package>, out: seq<Package>)
    requires k < |layer|
    ensures out + layer[..k] + [layer[k]] == out + layer[..k + 1]
    ensures Shorts(layer[..k + 1]) == Shorts(layer[..k]) + {layer[k].short}
    ensures Filter(Filter(remaining, NotIn(Shorts(layer[..k]))), NotIn({layer[k].short})) == Rest(remaining, layer[..k + 1])
  {
    assert layer[..k + 1] == layer[..k] + [layer[k]];
    FilterTwice(remaining, Shorts(layer[..k]), {layer[k].short});
  }

  lemma {:induction false} FilterTwice(s: seq<Package>, a: set<string>, b: set<string>)
    ensures Filter(Filter(s, NotIn(a)), NotIn(b)) == Filter(s, NotIn(a + b))
  {
    if s != [] {
      FilterTwice(s[1..], a, b);
      if NotIn(a)(s[0]) {
        var kept := Filter(s[1..], NotIn(a));
        assert ([s[0]] + kept)[1..] == kept;
      }
    }
  }

  lemma {:induction false} FilterAll(s: seq<Package>)
    ensures Filter(s, NotIn({})) == s
  {
    if s != [] { FilterAll(s[1..]); }
  }

  /** Emit one layer, removing each package from the remaining ones as it is placed. */
  method PlaceLayer(layer: seq<Package>, remaining: seq<Package>, placed: set<string>, out: seq<Package>)
    returns (rest: seq<Package>, newlyPlaced: set<string>, longer: seq<Package>)
    ensures rest == Rest(remaining, layer) && newlyPlaced == placed + Shorts(layer) && longer == out + layer
  {
    rest, newlyPlaced, longer := remaining, placed, out;
    FilterAll(remaining);
    assert layer[..0] == [] && Shorts([]) == {};
    for k := 0 to |layer|
      invariant rest == Rest(remaining, layer[..k])
      invariant newlyPlaced == placed + Shorts(layer[..k]) && longer == out + layer[..k]
    {
      TakeMore(layer, k, remaining, out);
      longer := longer + [layer[k]];
      newlyPlaced := newlyPlaced + {layer[k].short};
      rest := Filter(rest, NotIn({layer[k].short}));
    }
    assert layer[..|layer|] == layer;
  }

  /** `topoSort`. */
  method TopoSort(packages: seq<Package>, groups: seq<string>, collate: Collation)
    returns (r: Result<seq<Package>, seq<string>>)
    ensures r == TopoOrder(packages, groups, collate)
  {
    var remaining, placed: set<string>, out := Entries(packages), {}, [];
    var le := AtMost(groups, collate);
    PrependNothing(Arrange(remaining, placed, le));
    while remaining != []
      invariant Prepend(out, Arrange(remaining, placed, le)) == TopoOrder(packages, groups, collate)
      decreases |remaining|
    {
      var ready := Sort(Filter(remaining, ReadyTest(placed)), le);
      if ready == [] {
        return Err(Names(remaining));
      }
      RestShrinks(remaining, placed, le);
      PrependTwice(out, ready, Arrange(Rest(remaining, ready), placed + Shorts(ready), le));
      remaining, placed, out := PlaceLayer(ready, remaining, placed, out);
    }
    r := Ok(out);
    assert out + [] == out;
  }
}
