/**
 * The diagnostics of scripts/project-reference-faces.ts told from the names of
 * the configs, what they extend and what they refer to.
 */
module ReferenceReport {
  import opened Prelude
  import opened Sorting
  import opened ProjectFaces
  import opened ReferenceWalk

  // ---- Which configs tell a face ----

  /** The path ends in this segment. */
  predicate EndsIn(p: Path, name: string) {
    p != [] && p[|p| - 1] == name
  }

  predicate IsHost(w: Workspace, p: Path) {
    EndsIn(p, "tsconfig.host.json") || p == w.root + ["tsconfig.base.json"]
  }

  predicate IsClient(w: Workspace, p: Path) {
    EndsIn(p, "tsconfig.client.json") || p == w.root + ["tsconfig.base.client.json"]
  }

  lemma NamesDiffer()
    ensures "tsconfig.host.json" != "tsconfig.client.json" && "tsconfig.host.json" != "tsconfig.base.client.json"
    ensures "tsconfig.client.json" != "tsconfig.base.json" && "tsconfig.base.json" != "tsconfig.base.client.json"
    ensures "tsconfig.host.json" != "tsconfig.base.json" && "tsconfig.client.json" != "tsconfig.base.client.json"
  {
    assert |"tsconfig.host.json"| == 18 == |"tsconfig.base.json"| && |"tsconfig.client.json"| == 20;
    assert |"tsconfig.base.client.json"| == 25;
    assert "tsconfig.host.json"[9] != "tsconfig.base.json"[9];
  }

  /** A config's path tells host, client or nothing, never both. */
  lemma NamedIsTold(w: Workspace, p: Path)
    ensures Named(w, p) == Some(Host) <==> IsHost(w, p)
    ensures Named(w, p) == Some(Client) <==> IsClient(w, p)
  {
    NamesDiffer();
    assert p == w.root + ["tsconfig.base.json"] ==> p[|p| - 1] == "tsconfig.base.json";
    assert p == w.root + ["tsconfig.base.client.json"] ==> p[|p| - 1] == "tsconfig.base.client.json";
  }

  /** The n-th config along `extends`, if every config before it exists and extends an existing one. */
  ghost function Extended(w: Workspace, p: Path, n: nat): Option<Path>
    decreases n
  {
    if p !in w.configs then None
    else if n == 0 then Some(p)
    else if w.configs[p].parent.None? then None
    else Extended(w, w.configs[p].parent.value, n - 1)
  }

  predicate Tells(w: Workspace, p: Path, face: Face) {
    if face.Host? then IsHost(w, p) else IsClient(w, p)
  }

  /** The n-th config along `extends` exists and tells no face. */
  ghost predicate Silent(w: Workspace, p: Path, n: nat) {
    Extended(w, p, n).Some? && !IsHost(w, Extended(w, p, n).value) && !IsClient(w, Extended(w, p, n).value)
  }

  /** The n-th config along `extends` is the first one that tells a face, and tells this one. */
  ghost predicate FirstTells(w: Workspace, p: Path, n: nat, face: Face) {
    && Extended(w, p, n).Some? && Tells(w, Extended(w, p, n).value, face)
    && forall k: nat {:trigger Silent(w, p, k)} | k < n :: Silent(w, p, k)
  }

  ghost predicate OfFace(w: Workspace, p: Path, face: Face) {
    exists n: nat {:trigger FirstTells(w, p, n, face)} :: FirstTells(w, p, n, face)
  }

  lemma FirstTellsLater(w: Workspace, p: Path, n: nat, face: Face)
    requires p in w.configs && n > 0
    ensures FirstTells(w, p, n, face) <==>
              && !IsHost(w, p) && !IsClient(w, p) && w.configs[p].parent.Some?
              && FirstTells(w, w.configs[p].parent.value, n - 1, face)
  {
    assert Silent(w, p, 0) <==> !IsHost(w, p) && !IsClient(w, p);
    if w.configs[p].parent.Some? {
      var q := w.configs[p].parent.value;
      forall k: nat ensures Silent(w, q, k) <==> Silent(w, p, k + 1) { }
      if FirstTells(w, p, n, face) {
        forall k: nat | k < n - 1 ensures Silent(w, q, k) { assert Silent(w, p, k + 1); }
      }
      if Silent(w, p, 0) && FirstTells(w, q, n - 1, face) {
        forall k: nat | k < n ensures Silent(w, p, k) { assert k > 0 ==> Silent(w, q, k - 1); }
      }
    }
  }

  lemma {:induction false} AlongExtends(w: Workspace, p: Path, n: nat, face: Face)
    requires p in w.configs
    ensures NamedAfter(w, p, n, face) <==> FirstTells(w, p, n, face)
    decreases n
  {
    NamedIsTold(w, p);
    if n > 0 {
      FirstTellsLater(w, p, n, face);
      if w.configs[p].parent.Some? && w.configs[p].parent.value in w.configs {
        AlongExtends(w, w.configs[p].parent.value, n - 1, face);
      }
    }
  }

  lemma FaceIsTold(w: Workspace, p: Path, face: Face)
    requires p in w.configs
    ensures ProjectFace(w, p, {}) == Some(face) <==> OfFace(w, p, face)
  {
    FaceIsFirstNamed(w, p, face);
    forall n: nat ensures NamedAfter(w, p, n, face) <==> FirstTells(w, p, n, face) { AlongExtends(w, p, n, face); }
  }

  // ---- Which split project contains a path ----

  /** A directory with a manifest and both leaf configs. */
  predicate IsSplit(w: Workspace, dir: Path) {
    dir in w.manifests && dir + ["tsconfig.host.json"] in w.configs && dir + ["tsconfig.client.json"] in w.configs
  }

  /** The split project around a path that lies inside every other one around it. */
  ghost predicate Innermost(w: Workspace, dir: Path, target: Path) {
    IsSplit(w, dir) && dir <= target && forall other: Path {:trigger IsSplit(w, other)} | IsSplit(w, other) && other <= target :: other <= dir
  }

  lemma SplitRootIsTold(w: Workspace, target: Path)
    ensures match ContainingSplitRoot(w, target)
            case Some(dir) => Innermost(w, dir, target)
            case None => forall dir: Path {:trigger IsSplit(w, dir)} | IsSplit(w, dir) :: !(dir <= target)
  {
    var found := ContainingSplitRoot(w, target);
    if found.Some? { SplitRootMembers(w, found.value); }
    forall dir: Path | IsSplit(w, dir) && dir <= target ensures found.Some? && dir <= found.value {
      assert HasBothFaces(w, dir);
      InnermostSplitRoot(w, target, dir);
    }
  }

  // ---- What is reported ----

  function Leaf(face: Face): string {
    if face.Host? then "tsconfig.host.json" else "tsconfig.client.json"
  }

  /** The reference enters a split project from a config without a face, or not by the leaf of the config's face. */
  ghost predicate Faulty(w: Workspace, p: Path, r: Reference, v: Violation) {
    && Innermost(w, v.splitRoot, r.target) && v.source == p && v.text == r.text
    && match v.face
       case None => forall face: Face :: !OfFace(w, p, face)
       case Some(face) => OfFace(w, p, face) && r.target != v.splitRoot + [Leaf(face)]
  }

  lemma OneInnermost(w: Workspace, a: Path, b: Path, target: Path)
    requires Innermost(w, a, target) && Innermost(w, b, target)
    ensures a == b
  {
  }

  lemma MismatchIsTold(w: Workspace, p: Path, r: Reference, v: Violation)
    requires p in w.configs
    ensures Mismatch(w, p, r) == Some(v) <==> Faulty(w, p, r, v)
  {
    SplitRootIsTold(w, r.target);
    FaceIsTold(w, p, Host);
    FaceIsTold(w, p, Client);
    var found := ContainingSplitRoot(w, r.target);
    if found.Some? && Innermost(w, v.splitRoot, r.target) { OneInnermost(w, found.value, v.splitRoot, r.target); }
    assert IsSplit(w, v.splitRoot) ==> (Innermost(w, v.splitRoot, r.target) ==> found.Some?);
  }

  /** An existing config reached from an aggregate through references that are not faulty. */
  ghost predicate Visited(w: Workspace, c: seq<Path>, p: Path) {
    && c != [] && c[|c| - 1] == p && p in w.configs
    && (c[0] == w.root + ["tsconfig.host.json"] || c[0] == w.root + ["tsconfig.client.json"])
    && forall i | 0 < i < |c| :: Leads(w, c[i - 1], c[i])
  }

  ghost predicate Leads(w: Workspace, a: Path, b: Path) {
    a in w.configs && exists r: Reference | r in w.configs[a].references :: r.target == b && forall v :: !Faulty(w, a, r, v)
  }

  lemma FollowsIsTold(w: Workspace, a: Path, b: Path)
    ensures Follows(w, a, b) <==> Leads(w, a, b)
  {
    if a in w.configs {
      TargetMembers(w, a, w.configs[a].references, b);
      forall r: Reference ensures Mismatch(w, a, r).None? <==> forall v :: !Faulty(w, a, r, v) {
        forall v ensures Mismatch(w, a, r) == Some(v) <==> Faulty(w, a, r, v) { MismatchIsTold(w, a, r, v); }
        if Mismatch(w, a, r).Some? { assert Faulty(w, a, r, Mismatch(w, a, r).value); }
      }
      if Follows(w, a, b) {
        var r :| r in w.configs[a].references && ProjectFaces.Leads(w, a, r, b);
        assert r.target == b;
      }
      if Leads(w, a, b) {
        var r: Reference :| r in w.configs[a].references && r.target == b && forall v :: !Faulty(w, a, r, v);
        assert ProjectFaces.Leads(w, a, r, b);
      }
    }
  }

  /** A line is reported exactly when it renders a faulty reference of a visited config. */
  lemma ReportIsTold(w: Workspace, order: seq<Path>, render: Violation -> string, line: string)
    requires Enumerates(w, order)
    ensures line in Report(w, order, render) <==>
              exists c, p, r, v :: Visited(w, c, p) && r in w.configs[p].references && Faulty(w, p, r, v) && render(v) == line
  {
    ReportIsExact(w, order, render, line);
    if Reported(w, render, line) {
      var p, r :| p in w.configs && r in w.configs[p].references
        && Reachable(w, p) && Mismatch(w, p, r).Some? && render(Mismatch(w, p, r).value) == line;
      var v := Mismatch(w, p, r).value;
      MismatchIsTold(w, p, r, v);
      var c :| ReachedBy(w, c, p);
      ChainIsTold(w, c, p);
      assert Visited(w, c, p);
    }
    if c, p, r, v :| Visited(w, c, p) && r in w.configs[p].references && Faulty(w, p, r, v) && render(v) == line {
      MismatchIsTold(w, p, r, v);
      ChainIsTold(w, c, p);
      assert ReachedBy(w, c, p);
    }
  }

  lemma ChainIsTold(w: Workspace, c: seq<Path>, p: Path)
    requires p in w.configs
    ensures ReachedBy(w, c, p) <==> Visited(w, c, p)
  {
    forall i | 0 < i < |c| ensures Follows(w, c[i - 1], c[i]) <==> Leads(w, c[i - 1], c[i]) {
      FollowsIsTold(w, c[i - 1], c[i]);
    }
  }

  // ---- How often and in which order ----

  /** Equal so far and then ended or smaller. */
  ghost predicate Precedes(a: string, b: string) {
    exists k: nat {:trigger a[..k]} :: k <= |a| && k <= |b| && a[..k] == b[..k] && (k == |a| || (k < |b| && a[k] < b[k]))
  }

  lemma {:induction false} StringOrderIsTold(a: string, b: string)
    requires StringAtMost(a, b)
    ensures Precedes(a, b)
  {
    if a == "" || a[0] < b[0] {
      assert a[..0] == b[..0];
    } else {
      StringOrderIsTold(a[1..], b[1..]);
      var k: nat :| k <= |a[1..]| && k <= |b[1..]| && a[1..][..k] == b[1..][..k]
                    && (k == |a[1..]| || (k < |b[1..]| && a[1..][k] < b[1..][k]));
      assert a[..k + 1] == [a[0]] + a[1..][..k] && b[..k + 1] == [b[0]] + b[1..][..k];
    }
  }

  /** The report is in order. */
  lemma ReportIsOrdered(w: Workspace, order: seq<Path>, render: Violation -> string, i: nat, j: nat)
    requires i < j < |Report(w, order, render)|
    ensures Precedes(Report(w, order, render)[i], Report(w, order, render)[j])
  {
    var lines := Gather(order, Lines(w, render));
    ByCharactersIsTotal(lines);
    SortSorts(lines, ByCharacters());
    assert ByCharacters()(Report(w, order, render)[i], Report(w, order, render)[j]);
    StringOrderIsTold(Report(w, order, render)[i], Report(w, order, render)[j]);
  }

  /** The reference is faulty and renders to this line. */
  ghost predicate RendersTo(w: Workspace, p: Path, r: Reference, render: Violation -> string, line: string) {
    exists v {:trigger Faulty(w, p, r, v)} :: Faulty(w, p, r, v) && render(v) == line
  }

  /** How many of the references do. */
  ghost function Times(w: Workspace, p: Path, rs: seq<Reference>, render: Violation -> string, line: string): nat {
    if rs == [] then 0
    else Times(w, p, rs[..|rs| - 1], render, line) + (if RendersTo(w, p, rs[|rs| - 1], render, line) then 1 else 0)
  }

  /** How many references of the configs do, each config counted as often as it is listed. */
  ghost function TimesInAll(w: Workspace, order: seq<Path>, render: Violation -> string, line: string): nat {
    if order == [] then 0
    else
      var p := order[|order| - 1];
      TimesInAll(w, order[..|order| - 1], render, line)
      + (if p in w.configs then Times(w, p, w.configs[p].references, render, line) else 0)
  }

  lemma {:induction false} LinesCount(w: Workspace, p: Path, rs: seq<Reference>, render: Violation -> string, line: string)
    requires p in w.configs
    ensures multiset(Rendered(Violations(w, p, rs), render))[line] == Times(w, p, rs, render, line)
  {
    if rs != [] {
      var init, last := rs[..|rs| - 1], rs[|rs| - 1];
      var before, bad := Violations(w, p, init), Mismatch(w, p, last);
      LinesCount(w, p, init, render, line);
      forall v ensures bad == Some(v) <==> Faulty(w, p, last, v) { MismatchIsTold(w, p, last, v); }
      if bad.Some? {
        assert (before + [bad.value])[..|before|] == before;
        assert Rendered(before + [bad.value], render) == Rendered(before, render) + [render(bad.value)];
      }
    }
  }

  /** A line is reported as often as references of visited configs render to it. */
  lemma {:induction false} ReportCounts(w: Workspace, order: seq<Path>, render: Violation -> string, line: string)
    ensures multiset(Report(w, order, render))[line] == TimesInAll(w, order, render, line)
  {
    SortPermutes(Gather(order, Lines(w, render)), ByCharacters());
    GatherCounts(w, order, render, line);
  }

  lemma {:induction false} GatherCounts(w: Workspace, order: seq<Path>, render: Violation -> string, line: string)
    ensures multiset(Gather(order, Lines(w, render)))[line] == TimesInAll(w, order, render, line)
  {
    if order != [] {
      var p := order[|order| - 1];
      GatherCounts(w, order[..|order| - 1], render, line);
      if p in w.configs { LinesCount(w, p, w.configs[p].references, render, line); }
    }
  }
}
