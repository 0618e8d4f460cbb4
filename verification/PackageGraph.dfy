/**
 * `topoSort` of scripts/package-graph.ts: packages in layers, each layer sorted
 * by group and name, and an error naming the packages that never become ready.
 */
module PackageGraph {
  import opened Prelude
  import opened Digraph
  import opened Sorting

  datatype Package = Package(short: string, group: string, rel: string, deps: seq<string>)

  /** String collation, negative, zero or positive like `localeCompare`. */
  type Collation = (string, string) -> int

  // ---- The order inside a layer ----

  /** `indexOf`: the first position of a group, or -1. */
  function IndexOf(groups: seq<string>, group: string): (r: int)
    ensures r == -1 <==> group !in groups
    ensures -1 <= r < |groups|
    ensures r >= 0 ==> groups[r] == group && group !in groups[..r]
  {
    if groups == [] then -1
    else if groups[0] == group then 0
    else var i := IndexOf(groups[1..], group); if i == -1 then -1 else i + 1
  }

  function GroupRank(groups: seq<string>, group: string): int {
    var i := IndexOf(groups, group);
    if i == -1 then MAX_SAFE_INTEGER else i
  }

  function ComparePackages(a: Package, b: Package, groups: seq<string>, collate: Collation): int {
    var byRank := GroupRank(groups, a.group) - GroupRank(groups, b.group);
    var byGroup := collate(a.group, b.group);
    if byRank != 0 then byRank else if byGroup != 0 then byGroup else collate(a.short, b.short)
  }

  function AtMost(groups: seq<string>, collate: Collation): (Package, Package) -> bool {
    (a, b) => ComparePackages(a, b, groups, collate) <= 0
  }

  /** A strict total order on distinct strings. */
  ghost predicate TotalCollation(collate: Collation) {
    && (forall a, b :: collate(a, b) == 0 <==> a == b)
    && (forall a, b :: collate(a, b) < 0 <==> collate(b, a) > 0)
    && (forall a, b, c :: collate(a, b) <= 0 && collate(b, c) <= 0 ==> collate(a, c) <= 0)
  }

  lemma CompareTransitive(a: Package, b: Package, c: Package, groups: seq<string>, collate: Collation)
    requires TotalCollation(collate)
    requires ComparePackages(a, b, groups, collate) <= 0 && ComparePackages(b, c, groups, collate) <= 0
    ensures ComparePackages(a, c, groups, collate) <= 0
  {
    assert collate(a.group, b.group) == 0 <==> a.group == b.group;
    assert collate(b.group, c.group) == 0 <==> b.group == c.group;
    assert collate(a.group, c.group) == 0 <==> a.group == c.group;
    if collate(a.group, b.group) <= 0 && collate(b.group, c.group) <= 0 && collate(a.group, c.group) == 0 {
      assert collate(b.group, a.group) <= 0;
      assert collate(b.group, a.group) < 0 <==> collate(a.group, b.group) > 0;
    }
  }

  /** The comparator totally orders packages. */
  lemma CompareIsTotal(groups: seq<string>, collate: Collation)
    requires TotalCollation(collate)
    ensures Total(AtMost(groups, collate))
  {
    var le := AtMost(groups, collate);
    forall a, b ensures le(a, b) || le(b, a) {
      assert collate(a.group, b.group) < 0 <==> collate(b.group, a.group) > 0;
      assert collate(a.short, b.short) < 0 <==> collate(b.short, a.short) > 0;
    }
    forall a, b, c | le(a, b) && le(b, c) ensures le(a, c) {
      CompareTransitive(a, b, c, groups, collate);
    }
  }

  /** Packages that compare equal share their name. */
  ghost predicate TiesShareName(le: (Package, Package) -> bool) {
    forall a, b | le(a, b) && le(b, a) :: a.short == b.short
  }

  lemma CompareTies(groups: seq<string>, collate: Collation)
    requires TotalCollation(collate)
    ensures TiesShareName(AtMost(groups, collate))
  {
    var le := AtMost(groups, collate);
    forall a, b | le(a, b) && le(b, a) ensures a.short == b.short {
      assert collate(a.group, b.group) < 0 <==> collate(b.group, a.group) > 0;
      assert collate(b.group, a.group) < 0 <==> collate(a.group, b.group) > 0;
      assert collate(a.short, b.short) < 0 <==> collate(b.short, a.short) > 0;
      assert collate(b.short, a.short) < 0 <==> collate(a.short, b.short) > 0;
    }
  }

  // ---- Layers ----

  ghost predicate DistinctShorts(packages: seq<Package>) {
    forall i, j | 0 <= i < j < |packages| :: packages[i].short != packages[j].short
  }

  function Shorts(packages: seq<Package>): set<string> {
    set p | p in packages :: p.short
  }

  function ReadyTest(placed: set<string>): Package -> bool {
    (p: Package) => forall d | d in p.deps :: d in placed
  }

  function NotIn(names: set<string>): Package -> bool {
    (p: Package) => p.short !in names
  }

  /** `new Map(packages.map(...))`: a repeated name keeps its first place and its last package. */
  function SetEntry(entries: seq<Package>, p: Package): seq<Package> {
    if entries == [] then [p]
    else if entries[0].short == p.short then [p] + entries[1..]
    else [entries[0]] + SetEntry(entries[1..], p)
  }

  function Entries(packages: seq<Package>): seq<Package> {
    if packages == [] then []
    else SetEntry(Entries(packages[..|packages| - 1]), packages[|packages| - 1])
  }

  lemma {:induction false} NewEntryAppends(entries: seq<Package>, p: Package)
    requires p.short !in Shorts(entries)
    ensures SetEntry(entries, p) == entries + [p]
  {
    if entries != [] {
      assert entries[0] in entries;
      NewEntryAppends(entries[1..], p);
    }
  }

  /** Without repeated names the map lists the packages as given. */
  lemma {:induction false} DistinctEntries(packages: seq<Package>)
    requires DistinctShorts(packages)
    ensures Entries(packages) == packages
  {
    if packages != [] {
      var init := packages[..|packages| - 1];
      DistinctEntries(init);
      NewEntryAppends(init, packages[|packages| - 1]);
    }
  }

  lemma DistinctCons(p: Package, rest: seq<Package>)
    ensures DistinctShorts([p] + rest) <==> p.short !in Shorts(rest) && DistinctShorts(rest)
    ensures Shorts([p] + rest) == {p.short} + Shorts(rest)
  {
    var all := [p] + rest;
    if DistinctShorts(all) {
      forall q | q in rest ensures q.short != p.short {
        var k :| 0 <= k < |rest| && rest[k] == q;
        assert all[0].short != all[k + 1].short;
      }
      forall i, j | 0 <= i < j < |rest| ensures rest[i].short != rest[j].short {
        assert all[i + 1].short != all[j + 1].short;
      }
    }
  }

  lemma {:induction false} SetEntryShorts(entries: seq<Package>, p: Package)
    requires DistinctShorts(entries)
    ensures DistinctShorts(SetEntry(entries, p)) && Shorts(SetEntry(entries, p)) == Shorts(entries) + {p.short}
  {
    if entries == [] {
      DistinctCons(p, []);
    } else {
      assert entries == [entries[0]] + entries[1..];
      DistinctCons(entries[0], entries[1..]);
      DistinctCons(p, entries[1..]);
      if entries[0].short != p.short {
        SetEntryShorts(entries[1..], p);
        DistinctCons(entries[0], SetEntry(entries[1..], p));
      }
    }
  }

  lemma {:induction false} SetEntryReplaces(entries: seq<Package>, p: Package)
    requires DistinctShorts(entries)
    ensures forall q | q in SetEntry(entries, p) :: q == p || (q in entries && q.short != p.short)
  {
    if entries != [] {
      assert entries == [entries[0]] + entries[1..];
      DistinctCons(entries[0], entries[1..]);
      if entries[0].short != p.short { SetEntryReplaces(entries[1..], p); }
    }
  }

  /** A package that is the last one listed under its name. */
  ghost predicate LastNamed(packages: seq<Package>, p: Package) {
    exists i | 0 <= i < |packages| :: packages[i] == p && forall j | i < j < |packages| :: packages[j].short != p.short
  }

  lemma LastNamedExtends(init: seq<Package>, last: Package, p: Package)
    requires p == last || (LastNamed(init, p) && p.short != last.short)
    ensures LastNamed(init + [last], p)
  {
    var packages := init + [last];
    if p == last {
      assert packages[|init|] == p;
    } else {
      var i :| 0 <= i < |init| && init[i] == p && forall j | i < j < |init| :: init[j].short != p.short;
      assert packages[i] == p;
    }
  }

  /** The names of the map are distinct, and each name keeps the last package listed for it. */
  lemma {:induction false} EntriesAreDistinct(packages: seq<Package>)
    ensures DistinctShorts(Entries(packages)) && Shorts(Entries(packages)) == Shorts(packages)
    ensures forall p | p in Entries(packages) :: LastNamed(packages, p)
  {
    if packages != [] {
      var init, last := packages[..|packages| - 1], packages[|packages| - 1];
      EntriesAreDistinct(init);
      SetEntryShorts(Entries(init), last);
      SetEntryReplaces(Entries(init), last);
      assert packages == init + [last];
      forall p | p in Entries(packages) ensures LastNamed(packages, p) {
        LastNamedExtends(init, last, p);
      }
    }
  }

  function Names(packages: seq<Package>): (r: seq<string>)
    ensures |r| == |packages| && forall i | 0 <= i < |r| :: r[i] == packages[i].short
  {
    if packages == [] then [] else [packages[0].short] + Names(packages[1..])
  }

  function Layer(remaining: seq<Package>, placed: set<string>, le: (Package, Package) -> bool): seq<Package> {
    Sort(Filter(remaining, ReadyTest(placed)), le)
  }

  function Rest(remaining: seq<Package>, layer: seq<Package>): seq<Package> {
    Filter(remaining, NotIn(Shorts(layer)))
  }

  lemma LayerMembers(remaining: seq<Package>, placed: set<string>, le: (Package, Package) -> bool)
    ensures forall p :: p in Layer(remaining, placed, le) <==> p in remaining && ReadyTest(placed)(p)
    ensures |Layer(remaining, placed, le)| == |Filter(remaining, ReadyTest(placed))|
  {
    var ready := Filter(remaining, ReadyTest(placed));
    SortPermutes(ready, le);
    SameMembers(ready, Sort(ready, le));
  }

  lemma RestShrinks(remaining: seq<Package>, placed: set<string>, le: (Package, Package) -> bool)
    requires Layer(remaining, placed, le) != []
    ensures |Rest(remaining, Layer(remaining, placed, le))| < |remaining|
  {
    var layer := Layer(remaining, placed, le);
    LayerMembers(remaining, placed, le);
    assert layer[0] in remaining && !NotIn(Shorts(layer))(layer[0]);
    FilterShrinks(remaining, NotIn(Shorts(layer)));
  }

  /** The loop as a function: the order of the remaining packages, or the names left when none is ready. */
  function Arrange(remaining: seq<Package>, placed: set<string>, le: (Package, Package) -> bool)
    : Result<seq<Package>, seq<string>>
    decreases |remaining|
  {
    if remaining == [] then Ok([])
    else
      var layer := Layer(remaining, placed, le);
      if layer == [] then Err(Names(remaining))
      else
        RestShrinks(remaining, placed, le);
        Prepend(layer, Arrange(Rest(remaining, layer), placed + Shorts(layer), le))
  }

  function TopoOrder(packages: seq<Package>, groups: seq<string>, collate: Collation): Result<seq<Package>, seq<string>> {
    Arrange(Entries(packages), {}, AtMost(groups, collate))
  }

  // ---- Which packages never become ready ----

  function DepsOf(packages: seq<Package>, name: string): seq<string> {
    match Find(packages, (p: Package) => p.short == name)
    case Some(p) => p.deps
    case None => []
  }

  function GraphOf(packages: seq<Package>): Graph {
    map name | name in Shorts(packages) :: DepsOf(packages, name)
  }

  lemma GraphLists(packages: seq<Package>, p: Package)
    requires DistinctShorts(packages) && p in packages
    ensures p.short in GraphOf(packages) && GraphOf(packages)[p.short] == p.deps
  {
    var found := Find(packages, (q: Package) => q.short == p.short);
    var i :| 0 <= i < |packages| && packages[i] == p;
    var j :| 0 <= j < |packages| && packages[j] == found.value;
    assert i == j;
  }

  /** The path leaves the packages or comes back to one of its own members. */
  ghost predicate Trap(g: Graph, p: seq<string>) {
    && p != [] && IsPath(g, p)
    && (p[|p| - 1] !in g || exists i | 0 <= i < |p| - 1 :: p[i] == p[|p| - 1])
  }

  /** Some dependency path from here reaches an unknown name or a cycle. */
  ghost predicate Trapped(g: Graph, a: string) {
    exists p :: Trap(g, p) && p[0] == a
  }

  lemma TailOfTrap(g: Graph, p: seq<string>)
    requires Trap(g, p) && |p| >= 2
    ensures Trapped(g, p[1])
  {
    var n := |p|;
    var tail := p[1..];
    assert IsPath(g, tail) by {
      forall i | 0 <= i < |tail| - 1 ensures Edge(g, tail[i], tail[i + 1]) {
        assert Edge(g, p[i + 1], p[i + 2]);
      }
    }
    if p[n - 1] !in g {
      assert Trap(g, tail);
    } else {
      var i :| 0 <= i < n - 1 && p[i] == p[n - 1];
      if i > 0 {
        assert tail[i - 1] == tail[|tail| - 1];
        assert Trap(g, tail);
      } else {
        var loop := tail + [p[1]];
        assert Edge(g, p[0], p[1]);
        assert IsPath(g, loop);
        assert loop[0] == loop[|loop| - 1];
        assert Trap(g, loop);
      }
    }
  }

  lemma UntrappedStep(g: Graph, a: string)
    requires a in g && forall d | d in g[a] :: !Trapped(g, d)
    ensures !Trapped(g, a)
  {
    if p :| Trap(g, p) && p[0] == a {
      assert |p| >= 2;
      assert Edge(g, p[0], p[1]);
      TailOfTrap(g, p);
    }
  }

  ghost predicate Blocked(g: Graph, u: set<string>, a: string) {
    a in g && exists d | d in g[a] :: d !in g || d in u
  }

  lemma {:induction false} BlockedWalk(g: Graph, u: set<string>, a: string, n: nat) returns (p: seq<string>)
    requires a in u && forall x {:trigger Blocked(g, u, x)} | x in u :: Blocked(g, u, x)
    ensures p != [] && p[0] == a && IsPath(g, p)
    ensures p[|p| - 1] !in g || (|p| == n + 1 && forall i | 0 <= i < |p| :: p[i] in u)
    decreases n
  {
    if n == 0 {
      p := [a];
    } else {
      assert Blocked(g, u, a);
      var d :| d in g[a] && (d !in g || d in u);
      assert Edge(g, a, d);
      var rest := [d];
      if d in g { rest := BlockedWalk(g, u, d, n - 1); }
      p := [a] + rest;
      forall i | 0 <= i < |p| - 1 ensures Edge(g, p[i], p[i + 1]) {
        if i > 0 { assert Edge(g, rest[i - 1], rest[i]); }
      }
    }
  }

  lemma BlockedAreTrapped(g: Graph, u: set<string>, a: string)
    requires a in u && forall x {:trigger Blocked(g, u, x)} | x in u :: Blocked(g, u, x)
    ensures Trapped(g, a)
  {
    var p := BlockedWalk(g, u, a, |u|);
    if p[|p| - 1] !in g {
      assert Trap(g, p);
    } else {
      if Distinct(p) {
        DistinctLength(p);
        SubsetSize(Elements(p), u);
        assert false;
      }
      var i, j :| 0 <= i < j < |p| && p[i] == p[j];
      var q := p[..j + 1];
      assert IsPath(g, q) by {
        forall k | 0 <= k < |q| - 1 ensures Edge(g, q[k], q[k + 1]) { assert Edge(g, p[k], p[k + 1]); }
      }
      assert q[i] == q[|q| - 1];
      assert Trap(g, q);
    }
  }

  /** The names in the error, none on success. */
  function StuckNames(r: Result<seq<Package>, seq<string>>): set<string> {
    match r
    case Ok(_) => {}
    case Err(names) => set x | x in names
  }
}
