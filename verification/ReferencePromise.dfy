/**
 * What an empty report of scripts/project-reference-faces.ts promises. The
 * script asks of every reference the face of the config that holds it; its
 * documentation asks the face of the aggregate the traversal began from.
 */
module ReferencePromise {
  import opened Prelude
  import opened ProjectFaces
  import opened ReferenceWalk

  /** No reachable config has a mismatched reference. */
  ghost predicate Clean(w: Workspace) {
    forall p, r {:trigger Mismatch(w, p, r)} | p in w.configs && Reachable(w, p) && r in w.configs[p].references ::
      Mismatch(w, p, r).None?
  }

  /** The report is empty exactly when every reference agrees with its own config's face. */
  lemma EmptyReportIsClean(w: Workspace, order: seq<Path>, render: Violation -> string)
    requires Enumerates(w, order)
    ensures Report(w, order, render) == [] <==> Clean(w)
  {
    var report := Report(w, order, render);
    forall line ensures line in report <==> Reported(w, render, line) { ReportIsExact(w, order, render, line); }
    if report != [] {
      assert report[0] in report;
    } else {
      forall p, r | p in w.configs && Reachable(w, p) && r in w.configs[p].references ensures Mismatch(w, p, r).None? {
        var bad := Mismatch(w, p, r);
        assert bad.Some? ==> Reported(w, render, render(bad.value));
      }
    }
  }

  // ---- The aggregate's face ----

  function Aggregate(w: Workspace, face: Face): Path {
    w.root + [LeafName(face)]
  }

  /** Reached through sound references from the aggregate of this face. */
  ghost predicate BeganFrom(w: Workspace, face: Face, p: Path) {
    exists c {:trigger Chain(w, c)} :: c != [] && c[0] == Aggregate(w, face) && Chain(w, c) && c[|c| - 1] == p
  }

  /** A reference of a config reached from the aggregate of this face enters a split project. */
  ghost predicate Enters(w: Workspace, face: Face, p: Path, r: Reference) {
    p in w.configs && BeganFrom(w, face, p) && r in w.configs[p].references && ContainingSplitRoot(w, r.target).Some?
  }

  /** The documented promise: whatever is reached from an aggregate enters split projects by its leaf. */
  ghost predicate Isolated(w: Workspace) {
    forall face, p, r {:trigger Enters(w, face, p, r)} | Enters(w, face, p, r) ::
      r.target == ContainingSplitRoot(w, r.target).value + [LeafName(face)]
  }

  /** Every config that refers into a split project has the face of each aggregate it is reached from. */
  ghost predicate FacesAgree(w: Workspace) {
    forall face, p, r {:trigger Enters(w, face, p, r)} | Enters(w, face, p, r) :: ProjectFace(w, p, {}) == Some(face)
  }

  lemma BeganIsReachable(w: Workspace, face: Face, p: Path)
    requires BeganFrom(w, face, p)
    ensures Reachable(w, p)
  {
    var c :| c != [] && c[0] == Aggregate(w, face) && Chain(w, c) && c[|c| - 1] == p;
    assert ReachedBy(w, c, p);
  }

  /** With an empty report the documented promise holds exactly when those faces agree. */
  lemma IsolationIsExact(w: Workspace)
    requires Clean(w)
    ensures Isolated(w) <==> FacesAgree(w)
  {
    forall face, p, r | Enters(w, face, p, r)
      ensures r.target == ContainingSplitRoot(w, r.target).value + [LeafName(face)] <==> ProjectFace(w, p, {}) == Some(face)
    {
      BeganIsReachable(w, face, p);
      assert Mismatch(w, p, r).None?;
      var own := ProjectFace(w, p, {}).value;
      LeavesDiffer(ContainingSplitRoot(w, r.target).value, own, face);
    }
  }

  lemma LeavesDiffer(dir: Path, a: Face, b: Face)
    ensures dir + [LeafName(a)] == dir + [LeafName(b)] <==> a == b
  {
    assert (dir + [LeafName(a)])[|dir|] == LeafName(a) && (dir + [LeafName(b)])[|dir|] == LeafName(b);
    assert HOST_CONFIG[9] != CLIENT_CONFIG[9];
  }

  // ---- An empty report without isolation ----

  /** The host aggregate refers to a neutral project `n`, which extends the client base and refers to the client leaf of `s`. */
  function Crossing(): Workspace {
    Workspace(["r"],
              map[["r", HOST_CONFIG] := Config(None, [Reference("./n", ["r", "n", "tsconfig.json"])]),
                  ["r", "n", "tsconfig.json"] :=
                    Config(Some(["r", "tsconfig.base.client.json"]), [Reference("../s/tsconfig.client.json", ["r", "s", CLIENT_CONFIG])]),
                  ["r", "tsconfig.base.client.json"] := Config(None, []),
                  ["r", "s", HOST_CONFIG] := Config(None, []),
                  ["r", "s", CLIENT_CONFIG] := Config(None, [])],
              [["r", "n"], ["r", "s"]])
  }

  lemma OnlyRoot(w: Workspace, s: Path, target: Path)
    requires forall root :: root in w.manifests && HasBothFaces(w, root) <==> root == s
    ensures ContainingSplitRoot(w, target) == if s <= target then Some(s) else None
  {
    SplitRootMembers(w, s);
    assert s in SplitRoots(w);
    if s <= target {
      InnermostSplitRoot(w, target, s);
    }
    var found := ContainingSplitRoot(w, target);
    if found.Some? { SplitRootMembers(w, found.value); }
  }

  lemma CrossingRoots(w: Workspace, target: Path)
    requires w == Crossing()
    ensures ContainingSplitRoot(w, target) == if ["r", "s"] <= target then Some(["r", "s"]) else None
  {
    var n, s := ["r", "n"], ["r", "s"];
    assert s + [HOST_CONFIG] == ["r", "s", HOST_CONFIG] && s + [CLIENT_CONFIG] == ["r", "s", CLIENT_CONFIG];
    assert |HOST_CONFIG| != |"tsconfig.json"|;
    assert (n + [HOST_CONFIG])[1] == "n" && (n + [HOST_CONFIG])[2] == HOST_CONFIG;
    assert n + [HOST_CONFIG] !in w.configs;
    assert forall root :: root in w.manifests <==> root == n || root == s;
    OnlyRoot(w, s, target);
  }

  /** From the host aggregate the traversal enters the client leaf of `s`, and nothing is reported. */
  lemma NeutralCrosses(w: Workspace, order: seq<Path>, render: Violation -> string)
    requires w == Crossing() && Enumerates(w, order)
    ensures Report(w, order, render) == []
    ensures !Isolated(w)
    ensures exists p, r :: Enters(w, Host, p, r) && r.target == ["r", "s"] + [LeafName(Client)]
  {
    CrossingIsClean(w);
    EmptyReportIsClean(w, order, render);
    var n := ["r", "n", "tsconfig.json"];
    var r := w.configs[n].references[0];
    CrossingRoots(w, r.target);
    CrossingFace(w, n);
    HostReaches(w, n);
    assert Enters(w, Host, n, r);
    assert r.target == ["r", "s"] + [LeafName(Client)];
    assert !FacesAgree(w);
    IsolationIsExact(w);
  }

  lemma CrossingFace(w: Workspace, n: Path)
    requires w == Crossing() && n == ["r", "n", "tsconfig.json"]
    ensures ProjectFace(w, n, {}) == Some(Client)
  {
    var base := ["r", "tsconfig.base.client.json"];
    assert |"tsconfig.json"| != |HOST_CONFIG| && |"tsconfig.json"| != |CLIENT_CONFIG|;
    assert |n| != |w.root + ["tsconfig.base.json"]| && |n| != |w.root + ["tsconfig.base.client.json"]|;
    assert |"tsconfig.base.client.json"| != |HOST_CONFIG| && |"tsconfig.base.client.json"| != |CLIENT_CONFIG|;
    assert |"tsconfig.base.client.json"| != |"tsconfig.base.json"|;
    assert base == w.root + ["tsconfig.base.client.json"] && base[1] != (w.root + ["tsconfig.base.json"])[1];
    assert Named(w, n).None? && Named(w, base) == Some(Client) && Next(w, n) == Some(base);
  }

  lemma CrossingIsClean(w: Workspace)
    requires w == Crossing()
    ensures Clean(w)
  {
    forall p, r | p in w.configs && Reachable(w, p) && r in w.configs[p].references ensures Mismatch(w, p, r).None? {
      CrossingRoots(w, r.target);
      if p == ["r", "n", "tsconfig.json"] {
        CrossingFace(w, p);
        assert r.target == ["r", "s"] + [LeafName(Client)];
      } else {
        assert p == ["r", HOST_CONFIG] && r.target[1] == "n";
      }
    }
  }

  lemma OneReference(w: Workspace, p: Path, r: Reference)
    requires p in w.configs && w.configs[p].references == [r] && Mismatch(w, p, r).None?
    ensures Follows(w, p, r.target)
  {
    assert Leads(w, p, r, r.target) && r in w.configs[p].references;
    TargetMembers(w, p, w.configs[p].references, r.target);
  }

  lemma HostReaches(w: Workspace, n: Path)
    requires w == Crossing() && n == ["r", "n", "tsconfig.json"]
    ensures BeganFrom(w, Host, n)
  {
    var host, r := Aggregate(w, Host), Reference("./n", n);
    assert host == ["r", HOST_CONFIG];
    CrossingRoots(w, n);
    assert n[1] == "n";
    OneReference(w, host, r);
    assert Chain(w, [host, n]);
  }
}
