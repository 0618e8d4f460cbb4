/**
 * The order and the error of scripts/package-graph.ts told from the list of
 * groups and the packages as given.
 */
module PackageReport {
  import opened Prelude
  import opened Sorting
  import opened PackageGraph
  import opened PackageOrder

  // ---- The comparator ----

  /** The first group is listed, and the other one is not or only after it. */
  ghost predicate GroupBefore(groups: seq<string>, a: string, b: string) {
    exists i: nat {:trigger groups[i]} :: i < |groups| && groups[i] == a && b !in groups[..i + 1]
  }

  /** By the listed order of groups, then by the name of the group, then by the name of the package. */
  ghost predicate Precedes(groups: seq<string>, collate: Collation, a: Package, b: Package) {
    || GroupBefore(groups, a.group, b.group)
    || (!GroupBefore(groups, b.group, a.group)
        && (collate(a.group, b.group) < 0 || (collate(a.group, b.group) == 0 && collate(a.short, b.short) <= 0)))
  }

  lemma NotBefore<T>(s: seq<T>, n: nat, x: T, k: nat)
    requires k < n <= |s| && x !in s[..n]
    ensures s[k] != x
  {
    assert s[..n][k] == s[k];
  }

  /** The first position of a listed name is at most any position of it. */
  lemma FirstAtMost(groups: seq<string>, a: string, k: nat)
    requires k < |groups| && groups[k] == a
    ensures 0 <= IndexOf(groups, a) <= k
  {
    var i := IndexOf(groups, a);
    assert a in groups;
    forall m: nat | m < i ensures groups[m] != a { NotBefore(groups, i, a, m); }
  }

  lemma RankIsTold(groups: seq<string>, a: string, b: string)
    requires |groups| <= MAX_SAFE_INTEGER
    ensures GroupRank(groups, a) < GroupRank(groups, b) <==> GroupBefore(groups, a, b)
  {
    var i, j := IndexOf(groups, a), IndexOf(groups, b);
    if GroupRank(groups, a) < GroupRank(groups, b) {
      assert i >= 0 && groups[i] == a;
      forall k: nat | k < i + 1 ensures groups[k] != b {
        if j >= 0 { NotBefore(groups, j, b, k); }
      }
      assert b !in groups[..i + 1];
    }
    if k: nat :| k < |groups| && groups[k] == a && b !in groups[..k + 1] {
      FirstAtMost(groups, a, k);
      forall m: nat | m < k + 1 ensures groups[m] != b { NotBefore(groups, k + 1, b, m); }
    }
  }

  lemma CompareIsTold(groups: seq<string>, collate: Collation, a: Package, b: Package)
    requires |groups| <= MAX_SAFE_INTEGER
    ensures AtMost(groups, collate)(a, b) <==> Precedes(groups, collate, a, b)
  {
    RankIsTold(groups, a.group, b.group);
    RankIsTold(groups, b.group, a.group);
  }

  ghost predicate PairInOrder(a: Package, b: Package, depth: map<string, nat>, groups: seq<string>, collate: Collation) {
    && a.short in depth && b.short in depth
    && depth[a.short] <= depth[b.short]
    && (depth[a.short] == depth[b.short] ==> Precedes(groups, collate, a, b))
  }

  ghost predicate InOrder(out: seq<Package>, depth: map<string, nat>, groups: seq<string>, collate: Collation) {
    forall i, j | 0 <= i < j < |out| :: PairInOrder(out[i], out[j], depth, groups, collate)
  }

  /**
   * A result lists every package once. A package stands before another one if
   * it is less deep, or as deep and not preceded by it; the depth is zero
   * without dependencies and otherwise one more than the deepest of them.
   */
  lemma OrderIsTold(packages: seq<Package>, groups: seq<string>, collate: Collation) returns (depth: map<string, nat>)
    requires |groups| <= MAX_SAFE_INTEGER && TotalCollation(collate) && TopoOrder(packages, groups, collate).Ok?
    ensures multiset(TopoOrder(packages, groups, collate).value) == multiset(Entries(packages))
    ensures forall p {:trigger DepthAt(depth, p)} | p in Entries(packages) :: DepthAt(depth, p)
    ensures InOrder(TopoOrder(packages, groups, collate).value, depth, groups, collate)
  {
    depth := ResultIsByDepth(packages, groups, collate);
    SortedIsTold(TopoOrder(packages, groups, collate).value, depth, groups, collate);
  }

  lemma SortedIsTold(out: seq<Package>, depth: map<string, nat>, groups: seq<string>, collate: Collation)
    requires |groups| <= MAX_SAFE_INTEGER && Sorted(out, ByDepth(depth, AtMost(groups, collate)))
    ensures InOrder(out, depth, groups, collate)
  {
    var le := AtMost(groups, collate);
    forall i, j | 0 <= i < j < |out| ensures PairInOrder(out[i], out[j], depth, groups, collate) {
      assert ByDepth(depth, le)(out[i], out[j]);
      CompareIsTold(groups, collate, out[i], out[j]);
    }
  }

  // ---- The table and the error ----

  /** One name occurs in the packages before the other one does. */
  ghost predicate NamedEarlier(packages: seq<Package>, a: string, b: string) {
    exists k: nat {:trigger packages[k]} :: k < |packages| && packages[k].short == a && b !in Shorts(packages[..k + 1])
  }

  /** The packages of the table stand in the order in which their names first occur. */
  ghost predicate FirstNameOrder(packages: seq<Package>, entries: seq<Package>) {
    forall i, j | 0 <= i < j < |entries| :: NamedEarlier(packages, entries[i].short, entries[j].short)
  }

  lemma {:induction false} SetEntryKeepsNames(entries: seq<Package>, p: Package)
    ensures var after := SetEntry(entries, p);
            && |entries| <= |after| <= |entries| + 1
            && (forall i | 0 <= i < |entries| :: after[i].short == entries[i].short)
            && (p.short in Shorts(entries) ==> |after| == |entries|)
            && (|after| == |entries| + 1 ==> after[|entries|] == p)
  {
    if entries != [] && entries[0].short != p.short {
      SetEntryKeepsNames(entries[1..], p);
      var rest, after := SetEntry(entries[1..], p), SetEntry(entries, p);
      assert after == [entries[0]] + rest;
      forall i | 0 <= i < |entries| ensures after[i].short == entries[i].short {
        if i > 0 { assert after[i] == rest[i - 1] && entries[i] == entries[1..][i - 1]; }
      }
      if p.short in Shorts(entries) {
        var q :| q in entries && q.short == p.short;
        assert q in entries[1..];
      }
    }
  }

  lemma EarlierStays(init: seq<Package>, last: Package, a: string, b: string)
    requires NamedEarlier(init, a, b)
    ensures NamedEarlier(init + [last], a, b)
  {
    var k: nat :| k < |init| && init[k].short == a && b !in Shorts(init[..k + 1]);
    assert (init + [last])[..k + 1] == init[..k + 1] && (init + [last])[k] == init[k];
  }

  lemma NewNameIsLater(init: seq<Package>, last: Package, a: string)
    requires a in Shorts(init) && last.short !in Shorts(init)
    ensures NamedEarlier(init + [last], a, last.short)
  {
    var q :| q in init && q.short == a;
    var k :| 0 <= k < |init| && init[k] == q;
    assert (init + [last])[..k + 1] == init[..k + 1] && (init + [last])[k] == q;
    assert forall r | r in init[..k + 1] :: r in init;
  }

  lemma OrderStays(init: seq<Package>, last: Package, before: seq<Package>)
    requires FirstNameOrder(init, before) && Shorts(before) == Shorts(init)
    ensures FirstNameOrder(init + [last], SetEntry(before, last))
  {
    var after := SetEntry(before, last);
    SetEntryKeepsNames(before, last);
    forall i, j | 0 <= i < j < |after| ensures NamedEarlier(init + [last], after[i].short, after[j].short) {
      assert before[i] in before && before[i].short in Shorts(before);
      if j < |before| {
        EarlierStays(init, last, before[i].short, before[j].short);
      } else {
        NewNameIsLater(init, last, before[i].short);
      }
    }
  }

  /** The table lists the names in the order in which they first occur. */
  lemma {:induction false} EntriesInOrder(packages: seq<Package>)
    ensures FirstNameOrder(packages, Entries(packages))
  {
    if packages != [] {
      var init, last := packages[..|packages| - 1], packages[|packages| - 1];
      EntriesInOrder(init);
      EntriesAreDistinct(init);
      assert packages == init + [last];
      OrderStays(init, last, Entries(init));
    }
  }

  lemma {:induction false} FilterOfRest(s: seq<Package>, keep: Package -> bool, stuck: Package -> bool)
    requires forall p | p in s && stuck(p) :: keep(p)
    ensures Filter(Filter(s, keep), stuck) == Filter(s, stuck)
  {
    if s != [] {
      FilterOfRest(s[1..], keep, stuck);
      if keep(s[0]) { assert ([s[0]] + Filter(s[1..], keep))[1..] == Filter(s[1..], keep); }
    }
  }

  lemma {:induction false} FilterEverything(s: seq<Package>, keep: Package -> bool)
    requires forall p | p in s :: keep(p)
    ensures Filter(s, keep) == s
  {
    if s != [] { FilterEverything(s[1..], keep); }
  }

  lemma {:induction false} StuckInOrder(
    all: seq<Package>, remaining: seq<Package>, placed: set<string>, le: (Package, Package) -> bool, stuck: Package -> bool)
    requires Underway(all, remaining, placed) && Arrange(remaining, placed, le).Err?
    requires forall x | x in placed :: !Trapped(GraphOf(all), x)
    requires forall p | p in all :: stuck(p) == Trapped(GraphOf(all), p.short)
    ensures Arrange(remaining, placed, le).error == Names(Filter(remaining, stuck))
    decreases |remaining|
  {
    var layer := Layer(remaining, placed, le);
    LayerMembers(remaining, placed, le);
    if layer == [] {
      forall p | p in remaining ensures stuck(p) { NoneReadyIsTrapped(all, remaining, placed, le, p); }
      FilterEverything(remaining, stuck);
    } else {
      forall p | p in layer ensures !stuck(p) { ReadyIsUntrapped(all, placed, p); }
      RestShrinks(remaining, placed, le);
      UnderwayStep(all, remaining, placed, le);
      forall p | p in remaining && stuck(p) ensures NotIn(Shorts(layer))(p) {
        LayerSplits(remaining, placed, le, p);
      }
      FilterOfRest(remaining, NotIn(Shorts(layer)), stuck);
      StuckInOrder(all, Rest(remaining, layer), placed + Shorts(layer), le, stuck);
    }
  }

  /** The error lists the packages that reach a cycle or an unknown name, in the order of the table. */
  lemma ErrorIsTold(packages: seq<Package>, groups: seq<string>, collate: Collation, stuck: Package -> bool)
    requires TopoOrder(packages, groups, collate).Err?
    requires forall p | p in Entries(packages) :: stuck(p) == Trapped(GraphOf(Entries(packages)), p.short)
    ensures TopoOrder(packages, groups, collate).error == Names(Filter(Entries(packages), stuck))
  {
    EntriesAreDistinct(packages);
    StuckInOrder(Entries(packages), Entries(packages), {}, AtMost(groups, collate), stuck);
  }
}
