/**
 * Compiler faces of scripts/project-reference-faces.ts: which face a config
 * belongs to, which split project contains a path, and which references enter
 * the wrong leaf of one.
 */
module ProjectFaces {
  import opened Prelude
  import opened Sorting

  datatype Face = Host | Client

  /** An absolute path, as its segments. */
  type Path = seq<string>

  /** A reference as written, and the config path it resolves to. */
  datatype Reference = Reference(text: string, target: Path)

  /** A parsed config: the local config it extends, if any, and its references. */
  datatype Config = Config(parent: Option<Path>, references: seq<Reference>)

  /** The repository: its root, the configs that exist, and the directories with a manifest. */
  datatype Workspace = Workspace(root: Path, configs: map<Path, Config>, manifests: seq<Path>)

  /** A mismatched reference; without a face, the referring config had none. */
  datatype Violation = Violation(source: Path, text: string, splitRoot: Path, face: Option<Face>)

  const HOST_CONFIG := "tsconfig.host.json"
  const CLIENT_CONFIG := "tsconfig.client.json"

  function BaseName(p: Path): string {
    if p == [] then "" else p[|p| - 1]
  }

  function LeafName(face: Face): string {
    match face
    case Host => HOST_CONFIG
    case Client => CLIENT_CONFIG
  }

  // ---- The face of a config ----

  /** The face a config's own path tells. */
  function Named(w: Workspace, p: Path): Option<Face> {
    if BaseName(p) == HOST_CONFIG then Some(Host)
    else if BaseName(p) == CLIENT_CONFIG then Some(Client)
    else if p == w.root + ["tsconfig.base.json"] then Some(Host)
    else if p == w.root + ["tsconfig.base.client.json"] then Some(Client)
    else None
  }

  /** The config that a config extends, when it exists. */
  function Next(w: Workspace, p: Path): Option<Path>
    requires p in w.configs
  {
    var parent := w.configs[p].parent;
    if parent.Some? && parent.value in w.configs then parent else None
  }

  lemma FewerUnseen(w: Workspace, p: Path, seen: set<Path>)
    requires p in w.configs && p !in seen
    ensures |w.configs.Keys - (seen + {p})| < |w.configs.Keys - seen|
  {
    SubsetSize(w.configs.Keys - (seen + {p}), w.configs.Keys - seen);
    assert p in w.configs.Keys - seen && p !in w.configs.Keys - (seen + {p});
  }

  /** `projectFace`: `seen` stops a cycle of `extends`. */
  function ProjectFace(w: Workspace, p: Path, seen: set<Path>): Option<Face>
    requires p in w.configs
    decreases |w.configs.Keys - seen|
  {
    if Named(w, p).Some? then Named(w, p)
    else if p in seen then None
    else
      var parent := Next(w, p);
      if parent.None? then None
      else
        FewerUnseen(w, p, seen);
        ProjectFace(w, parent.value, seen + {p})
  }

  /** The `n`-th config along `extends` is the first whose path tells a face. */
  ghost predicate NamedAfter(w: Workspace, p: Path, n: nat, face: Face)
    requires p in w.configs
    decreases n
  {
    if n == 0 then Named(w, p) == Some(face)
    else Named(w, p).None? && Next(w, p).Some? && NamedAfter(w, Next(w, p).value, n - 1, face)
  }

  /** Configs without a told face that lead on only to each other or to one more config. */
  ghost predicate Unnamed(w: Workspace, seen: set<Path>, p: Path) {
    seen <= w.configs.Keys
    && forall s | s in seen :: Named(w, s).None? && (Next(w, s).Some? ==> Next(w, s).value in seen || Next(w, s).value == p)
  }

  lemma {:induction false} ChainStays(w: Workspace, seen: set<Path>, p: Path, s: Path, n: nat, face: Face)
    requires p in seen && Unnamed(w, seen, p) && s in seen
    ensures !NamedAfter(w, s, n, face)
    decreases n
  {
    if n > 0 && Next(w, s).Some? { ChainStays(w, seen, p, Next(w, s).value, n - 1, face); }
  }

  /** Some config along the `extends` chain is the first to tell a face, and it tells this one. */
  ghost predicate HasFace(w: Workspace, p: Path, face: Face)
    requires p in w.configs
  {
    exists n: nat :: NamedAfter(w, p, n, face)
  }

  lemma FaceHere(w: Workspace, p: Path, face: Face)
    requires p in w.configs && Named(w, p).Some?
    ensures HasFace(w, p, face) <==> Named(w, p) == Some(face)
  {
    assert NamedAfter(w, p, 0, face) <==> Named(w, p) == Some(face);
  }

  lemma FaceFurther(w: Workspace, p: Path, face: Face)
    requires p in w.configs && Named(w, p).None?
    ensures HasFace(w, p, face) <==> Next(w, p).Some? && HasFace(w, Next(w, p).value, face)
  {
    if Next(w, p).Some? {
      var q := Next(w, p).value;
      if n: nat :| NamedAfter(w, q, n, face) { assert NamedAfter(w, p, n + 1, face); }
      if n: nat :| NamedAfter(w, p, n, face) { assert n > 0 && NamedAfter(w, q, n - 1, face); }
    }
  }

  lemma {:induction false} FaceAlongChain(w: Workspace, p: Path, seen: set<Path>, face: Face)
    requires p in w.configs && Unnamed(w, seen, p)
    ensures ProjectFace(w, p, seen) == Some(face) <==> HasFace(w, p, face)
    decreases |w.configs.Keys - seen|
  {
    if Named(w, p).Some? {
      FaceHere(w, p, face);
    } else if p in seen {
      forall n: nat ensures !NamedAfter(w, p, n, face) { ChainStays(w, seen, p, p, n, face); }
    } else {
      FaceFurther(w, p, face);
      if Next(w, p).Some? {
        FewerUnseen(w, p, seen);
        FaceAlongChain(w, Next(w, p).value, seen + {p}, face);
      }
    }
  }

  /** A config has the face of the first config along its `extends` chain that tells one, cycles or not. */
  lemma FaceIsFirstNamed(w: Workspace, p: Path, face: Face)
    requires p in w.configs
    ensures ProjectFace(w, p, {}) == Some(face) <==> HasFace(w, p, face)
  {
    FaceAlongChain(w, p, {}, face);
  }

  // ---- The split project that contains a path ----

  /** The length of the path as a string. */
  function PathLength(p: Path): nat {
    if p == [] then 0 else PathLength(p[..|p| - 1]) + 1 + |p[|p| - 1]|
  }

  function LongestFirst(): (Path, Path) -> bool {
    (a: Path, b: Path) => PathLength(b) <= PathLength(a)
  }

  predicate HasBothFaces(w: Workspace, dir: Path) {
    dir + [HOST_CONFIG] in w.configs && dir + [CLIENT_CONFIG] in w.configs
  }

  function SplitRoots(w: Workspace): seq<Path> {
    Sort(Filter(w.manifests, (dir: Path) => HasBothFaces(w, dir)), LongestFirst())
  }

  function ContainingSplitRoot(w: Workspace, target: Path): Option<Path> {
    Find(SplitRoots(w), (root: Path) => root <= target)
  }

  lemma {:induction false} PrefixLength(a: Path, b: Path)
    requires a <= b
    ensures PathLength(a) <= PathLength(b)
    ensures a != b ==> PathLength(a) < PathLength(b)
  {
    if a != b {
      assert a <= b[..|b| - 1];
      PrefixLength(a, b[..|b| - 1]);
    }
  }

  lemma SplitRootMembers(w: Workspace, root: Path)
    ensures root in SplitRoots(w) <==> root in w.manifests && HasBothFaces(w, root)
  {
    var roots := Filter(w.manifests, (dir: Path) => HasBothFaces(w, dir));
    SortPermutes(roots, LongestFirst());
    SameMembers(roots, SplitRoots(w));
  }

  lemma LongestFirstIsTotal()
    ensures Total(LongestFirst())
  {
  }

  /** The split project found is the innermost one around the path; none is found exactly when there is none. */
  lemma InnermostSplitRoot(w: Workspace, target: Path, root: Path)
    requires root in w.manifests && HasBothFaces(w, root) && root <= target
    ensures ContainingSplitRoot(w, target).Some?
    ensures var found := ContainingSplitRoot(w, target).value;
            root <= found <= target && found in w.manifests && HasBothFaces(w, found)
  {
    var roots := SplitRoots(w);
    SplitRootMembers(w, root);
    assert (root <= target) && root in roots;
    var found := ContainingSplitRoot(w, target).value;
    SplitRootMembers(w, found);
    LongestFirstIsTotal();
    SortSorts(Filter(w.manifests, (dir: Path) => HasBothFaces(w, dir)), LongestFirst());
    var i := FindIsFirst(roots, (r: Path) => r <= target);
    var j :| 0 <= j < |roots| && roots[j] == root;
    assert i < j ==> LongestFirst()(roots[i], roots[j]);
    PrefixesCompare(root, found, target);
  }

  lemma PrefixesCompare(a: Path, b: Path, target: Path)
    requires a <= target && b <= target && PathLength(a) <= PathLength(b)
    ensures a <= b
  {
    if |a| > |b| {
      assert b <= a;
      PrefixLength(b, a);
    }
  }

  // ---- References ----

  /** What is wrong with a reference, if anything. */
  function Mismatch(w: Workspace, source: Path, r: Reference): Option<Violation>
    requires source in w.configs
  {
    match ContainingSplitRoot(w, r.target)
    case None => None
    case Some(splitRoot) =>
      match ProjectFace(w, source, {})
      case None => Some(Violation(source, r.text, splitRoot, None))
      case Some(face) =>
        if r.target == splitRoot + [LeafName(face)] then None
        else Some(Violation(source, r.text, splitRoot, Some(face)))
  }

  /** The targets a config leads the traversal to. */
  function Targets(w: Workspace, source: Path, rs: seq<Reference>): seq<Path>
    requires source in w.configs
  {
    if rs == [] then []
    else
      var init, last := Targets(w, source, rs[..|rs| - 1]), rs[|rs| - 1];
      if Mismatch(w, source, last).None? then init + [last.target] else init
  }

  function Violations(w: Workspace, source: Path, rs: seq<Reference>): seq<Violation>
    requires source in w.configs
  {
    if rs == [] then []
    else
      var init, bad := Violations(w, source, rs[..|rs| - 1]), Mismatch(w, source, rs[|rs| - 1]);
      if bad.Some? then init + [bad.value] else init
  }

  ghost predicate Leads(w: Workspace, source: Path, r: Reference, p: Path)
    requires source in w.configs
  {
    Mismatch(w, source, r).None? && r.target == p
  }

  lemma {:induction false} TargetMembers(w: Workspace, source: Path, rs: seq<Reference>, p: Path)
    requires source in w.configs
    ensures p in Targets(w, source, rs) <==> exists r {:trigger Leads(w, source, r, p)} | r in rs :: Leads(w, source, r, p)
  {
    if rs != [] {
      var init, last := rs[..|rs| - 1], rs[|rs| - 1];
      TargetMembers(w, source, init, p);
      LastTarget(w, source, init, last, p);
      assert rs == init + [last];
    }
  }

  lemma LastTarget(w: Workspace, source: Path, init: seq<Reference>, last: Reference, p: Path)
    requires source in w.configs
    ensures p in Targets(w, source, init + [last]) <==> p in Targets(w, source, init) || Leads(w, source, last, p)
  {
    var rs := init + [last];
    assert rs[..|rs| - 1] == init && rs[|rs| - 1] == last;
  }

  ghost predicate Breaks(w: Workspace, source: Path, r: Reference, v: Violation)
    requires source in w.configs
  {
    Mismatch(w, source, r) == Some(v)
  }

  lemma {:induction false} ViolationMembers(w: Workspace, source: Path, rs: seq<Reference>, v: Violation)
    requires source in w.configs
    ensures v in Violations(w, source, rs) <==> exists r {:trigger Breaks(w, source, r, v)} | r in rs :: Breaks(w, source, r, v)
  {
    if rs != [] {
      var init, last := rs[..|rs| - 1], rs[|rs| - 1];
      ViolationMembers(w, source, init, v);
      LastViolation(w, source, init, last, v);
      assert rs == init + [last];
    }
  }

  lemma LastViolation(w: Workspace, source: Path, init: seq<Reference>, last: Reference, v: Violation)
    requires source in w.configs
    ensures v in Violations(w, source, init + [last]) <==> v in Violations(w, source, init) || Breaks(w, source, last, v)
  {
    var rs := init + [last];
    assert rs[..|rs| - 1] == init && rs[|rs| - 1] == last;
  }
}
