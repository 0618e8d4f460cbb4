/** `collectProjectReferenceFaceViolations` of scripts/project-reference-faces.ts: the worklist over references. */
module ReferenceWalk {
  import opened Prelude
  import opened Sorting
  import opened ProjectFaces

  // ---- What is reachable ----

  /** One sound reference leads from an existing config to another config path. */
  ghost predicate Follows(w: Workspace, a: Path, b: Path) {
    a in w.configs && b in Targets(w, a, w.configs[a].references)
  }

  /** A chain of sound references. */
  ghost predicate Chain(w: Workspace, c: seq<Path>) {
    forall i | 0 < i < |c| :: Follows(w, c[i - 1], c[i])
  }

  ghost predicate IsAggregate(w: Workspace, p: Path) {
    p == w.root + [HOST_CONFIG] || p == w.root + [CLIENT_CONFIG]
  }

  ghost predicate ReachedBy(w: Workspace, c: seq<Path>, p: Path) {
    c != [] && IsAggregate(w, c[0]) && Chain(w, c) && c[|c| - 1] == p
  }

  /** Reachable from either aggregate through sound references. */
  ghost predicate Reachable(w: Workspace, p: Path) {
    exists c :: ReachedBy(w, c, p)
  }

  lemma AggregateIsReachable(w: Workspace, p: Path)
    requires IsAggregate(w, p)
    ensures Reachable(w, p)
  {
    assert ReachedBy(w, [p], p);
  }

  lemma ReachFurther(w: Workspace, a: Path, b: Path)
    requires Reachable(w, a) && Follows(w, a, b)
    ensures Reachable(w, b)
  {
    var c :| ReachedBy(w, c, a);
    var d := c + [b];
    forall i | 0 < i < |d| ensures Follows(w, d[i - 1], d[i]) {
      assert i < |c| ==> Follows(w, c[i - 1], c[i]);
    }
    assert ReachedBy(w, d, b);
  }

  // ---- The worklist's invariant ----

  ghost predicate HandledOrWaiting(w: Workspace, visited: set<Path>, pending: seq<Path>, p: Path) {
    p in visited || p in pending || p !in w.configs
  }

  ghost predicate Underway(w: Workspace, visited: set<Path>, pending: seq<Path>) {
    && (forall p | p in visited :: p in w.configs && Reachable(w, p))
    && (forall p | p in pending :: Reachable(w, p))
    && (forall p {:trigger IsAggregate(w, p)} | IsAggregate(w, p) :: HandledOrWaiting(w, visited, pending, p))
    && (forall a, b {:trigger Follows(w, a, b)} | a in visited && Follows(w, a, b) :: HandledOrWaiting(w, visited, pending, b))
  }

  lemma StartUnderway(w: Workspace)
    ensures Underway(w, {}, [w.root + [HOST_CONFIG], w.root + [CLIENT_CONFIG]])
  {
    AggregateIsReachable(w, w.root + [HOST_CONFIG]);
    AggregateIsReachable(w, w.root + [CLIENT_CONFIG]);
  }

  lemma PopKnown(w: Workspace, visited: set<Path>, rest: seq<Path>, p: Path)
    requires Underway(w, visited, rest + [p]) && (p in visited || p !in w.configs)
    ensures Underway(w, visited, rest)
  {
    forall q ensures HandledOrWaiting(w, visited, rest + [p], q) ==> HandledOrWaiting(w, visited, rest, q) { }
  }

  lemma PopNew(w: Workspace, visited: set<Path>, rest: seq<Path>, p: Path)
    requires Underway(w, visited, rest + [p]) && p in w.configs
    ensures Underway(w, visited + {p}, rest + Targets(w, p, w.configs[p].references))
  {
    var targets := Targets(w, p, w.configs[p].references);
    assert p in rest + [p];
    forall q | q in targets ensures Reachable(w, q) {
      assert Follows(w, p, q);
      ReachFurther(w, p, q);
    }
    forall q | HandledOrWaiting(w, visited, rest + [p], q) ensures HandledOrWaiting(w, visited + {p}, rest + targets, q) { }
  }

  lemma {:induction false} ChainIsVisited(w: Workspace, visited: set<Path>, c: seq<Path>, p: Path)
    requires Underway(w, visited, []) && ReachedBy(w, c, p) && p in w.configs
    ensures p in visited
    decreases |c|
  {
    if |c| == 1 {
      assert HandledOrWaiting(w, visited, [], p);
    } else {
      var init := c[..|c| - 1];
      var a := init[|init| - 1];
      assert Follows(w, a, p);
      assert ReachedBy(w, init, a);
      ChainIsVisited(w, visited, init, a);
      assert HandledOrWaiting(w, visited, [], p);
    }
  }

  /** When the worklist is empty, exactly the reachable configs have been visited. */
  lemma DoneIsReachable(w: Workspace, visited: set<Path>, p: Path)
    requires Underway(w, visited, [])
    ensures p in visited <==> p in w.configs && Reachable(w, p)
  {
    if p in w.configs && Reachable(w, p) {
      var c :| ReachedBy(w, c, p);
      ChainIsVisited(w, visited, c, p);
    }
  }

  // ---- The report ----

  function Rendered(vs: seq<Violation>, render: Violation -> string): (r: seq<string>)
    ensures |r| == |vs| && forall i | 0 <= i < |r| :: r[i] == render(vs[i])
  {
    if vs == [] then [] else Rendered(vs[..|vs| - 1], render) + [render(vs[|vs| - 1])]
  }

  /** The diagnostics of one config, rendered. */
  function Lines(w: Workspace, render: Violation -> string): Path -> seq<string> {
    (p: Path) => if p in w.configs then Rendered(Violations(w, p, w.configs[p].references), render) else []
  }

  function Gather<T, U>(order: seq<T>, f: T -> seq<U>): seq<U> {
    if order == [] then [] else Gather(order[..|order| - 1], f) + f(order[|order| - 1])
  }

  /** The reachable configs, each once, in some order. */
  ghost predicate Enumerates(w: Workspace, order: seq<Path>) {
    && Distinct(order)
    && (forall p | p in order :: p in w.configs)
    && (forall p :: p in order <==> p in w.configs && Reachable(w, p))
  }

  lemma {:induction false} GatherMembers<T, U>(order: seq<T>, f: T -> seq<U>, x: U)
    ensures x in Gather(order, f) <==> exists p | p in order :: x in f(p)
  {
    if order != [] {
      var init, p := order[..|order| - 1], order[|order| - 1];
      assert order == init + [p];
      GatherMembers(init, f, x);
    }
  }

  lemma OwnLines(w: Workspace, p: Path, render: Violation -> string, line: string)
    requires p in w.configs
    ensures line in Lines(w, render)(p) <==>
              exists r | r in w.configs[p].references :: Mismatch(w, p, r).Some? && render(Mismatch(w, p, r).value) == line
  {
    var rs := w.configs[p].references;
    var vs := Violations(w, p, rs);
    if i :| 0 <= i < |vs| && render(vs[i]) == line {
      assert vs[i] in vs;
      ViolationMembers(w, p, rs, vs[i]);
      var r :| r in rs && Breaks(w, p, r, vs[i]);
    }
    if r :| r in rs && Mismatch(w, p, r).Some? && render(Mismatch(w, p, r).value) == line {
      var v := Mismatch(w, p, r).value;
      ViolationMembers(w, p, rs, v);
      assert Breaks(w, p, r, v);
      var i :| 0 <= i < |vs| && vs[i] == v;
      assert Rendered(vs, render)[i] == line;
    }
  }

  lemma {:induction false} GatherConcat<T, U>(a: seq<T>, b: seq<T>, f: T -> seq<U>)
    ensures Gather(a + b, f) == Gather(a, f) + Gather(b, f)
    decreases |b|
  {
    if b == [] {
      assert a + b == a;
    } else {
      var init, last := b[..|b| - 1], b[|b| - 1];
      assert (a + b)[..|a + b| - 1] == a + init;
      GatherConcat(a, init, f);
    }
  }

  lemma Without<T>(s: seq<T>, j: nat)
    requires Distinct(s) && j < |s|
    ensures Distinct(s[..j] + s[j + 1..]) && Elements(s[..j] + s[j + 1..]) == Elements(s) - {s[j]}
  {
    var rest := s[..j] + s[j + 1..];
    forall x ensures x in Elements(rest) <==> x in Elements(s) - {s[j]} {
      if x in s && x != s[j] {
        var i :| 0 <= i < |s| && s[i] == x;
        assert rest[if i < j then i else i - 1] == x;
      }
    }
  }

  lemma SplitAround<T>(s: seq<T>, j: nat)
    requires j < |s|
    ensures s == s[..j] + ([s[j]] + s[j + 1..])
  {
  }

  lemma MoveMiddle<U>(before: seq<U>, middle: seq<U>, after: seq<U>)
    ensures multiset(before + (middle + after)) == multiset(before + after) + multiset(middle)
  {
  }

  lemma GatherOne<T, U>(x: T, f: T -> seq<U>)
    ensures Gather([x], f) == f(x)
  {
    assert [x][..0] == [] && [] + f(x) == f(x);
  }

  lemma GatherAround<T, U>(s: seq<T>, j: nat, f: T -> seq<U>)
    requires j < |s|
    ensures multiset(Gather(s, f)) == multiset(Gather(s[..j] + s[j + 1..], f)) + multiset(f(s[j]))
  {
    var before, x, after := s[..j], s[j], s[j + 1..];
    SplitAround(s, j);
    GatherConcat(before, [x] + after, f);
    GatherConcat([x], after, f);
    GatherConcat(before, after, f);
    GatherOne(x, f);
    MoveMiddle(Gather(before, f), f(x), Gather(after, f));
  }

  /** What is gathered, with repetitions, depends only on which elements are listed. */
  lemma {:induction false} GatherIgnoresOrder<T, U>(a: seq<T>, b: seq<T>, f: T -> seq<U>)
    requires Distinct(a) && Distinct(b) && Elements(a) == Elements(b)
    ensures multiset(Gather(a, f)) == multiset(Gather(b, f))
    decreases |a|
  {
    if a == [] {
      DistinctLength(b);
    } else {
      var x := a[|a| - 1];
      assert x in Elements(a);
      var j :| 0 <= j < |b| && b[j] == x;
      Without(a, |a| - 1);
      Without(b, j);
      GatherAround(a, |a| - 1, f);
      GatherAround(b, j, f);
      GatherIgnoresOrder(a[..|a| - 1] + a[|a| - 1 + 1..], b[..j] + b[j + 1..], f);
    }
  }

  // ---- String order ----

  /**
   * The default order of `sort()`, a prefix first. It compares UTF-16 code units, which is this
   * order of characters for text without characters beyond the basic plane.
   */
  predicate StringAtMost(a: string, b: string) {
    a == "" || (b != "" && (a[0] < b[0] || (a[0] == b[0] && StringAtMost(a[1..], b[1..]))))
  }

  lemma {:induction false} StringsCompare(a: string, b: string)
    ensures StringAtMost(a, b) || StringAtMost(b, a)
    ensures StringAtMost(a, b) && StringAtMost(b, a) ==> a == b
  {
    if a != "" && b != "" {
      StringsCompare(a[1..], b[1..]);
      assert a == [a[0]] + a[1..] && b == [b[0]] + b[1..];
    }
  }

  lemma {:induction false} StringsChain(a: string, b: string, c: string)
    requires StringAtMost(a, b) && StringAtMost(b, c)
    ensures StringAtMost(a, c)
  {
    if a != "" && a[0] == b[0] == c[0] { StringsChain(a[1..], b[1..], c[1..]); }
  }

  function ByCharacters(): (string, string) -> bool {
    (a: string, b: string) => StringAtMost(a, b)
  }

  lemma ByCharactersIsTotal(s: seq<string>)
    ensures Total(ByCharacters()) && Strict(s, ByCharacters())
  {
    forall a: string, b: string ensures ByCharacters()(a, b) || ByCharacters()(b, a) { StringsCompare(a, b); }
    forall a: string, b: string, c: string | ByCharacters()(a, b) && ByCharacters()(b, c) ensures ByCharacters()(a, c) { StringsChain(a, b, c); }
    forall a: string, b: string | a in s && b in s && ByCharacters()(a, b) && ByCharacters()(b, a) ensures a == b { StringsCompare(a, b); }
  }

  // ---- Main results ----

  /** Some reachable config has a mismatched reference that renders to this line. */
  ghost predicate Reported(w: Workspace, render: Violation -> string, line: string) {
    exists p, r | p in w.configs && r in w.configs[p].references ::
      Reachable(w, p) && Mismatch(w, p, r).Some? && render(Mismatch(w, p, r).value) == line
  }

  function Report(w: Workspace, order: seq<Path>, render: Violation -> string): seq<string> {
    Sort(Gather(order, Lines(w, render)), ByCharacters())
  }

  /** A line is reported exactly when a reachable config has a mismatched reference that renders to it. */
  lemma ReportIsExact(w: Workspace, order: seq<Path>, render: Violation -> string, line: string)
    requires Enumerates(w, order)
    ensures line in Report(w, order, render) <==> Reported(w, render, line)
  {
    var lines := Gather(order, Lines(w, render));
    SortPermutes(lines, ByCharacters());
    SameMembers(lines, Report(w, order, render));
    GatherMembers(order, Lines(w, render), line);
    forall p | p in w.configs
      ensures line in Lines(w, render)(p) <==>
                exists r | r in w.configs[p].references :: Mismatch(w, p, r).Some? && render(Mismatch(w, p, r).value) == line
    {
      OwnLines(w, p, render, line);
    }
  }

  /** The report does not depend on the order in which configs are visited. */
  lemma ReportIgnoresOrder(w: Workspace, a: seq<Path>, b: seq<Path>, render: Violation -> string)
    requires Enumerates(w, a) && Enumerates(w, b)
    ensures Report(w, a, render) == Report(w, b, render)
  {
    assert Elements(a) == Elements(b);
    GatherIgnoresOrder(a, b, Lines(w, render));
    ByCharactersIsTotal(Gather(a, Lines(w, render)));
    SortIgnoresOrder(Gather(a, Lines(w, render)), Gather(b, Lines(w, render)), ByCharacters());
  }

  // ---- The loops ----

  /** The targets and diagnostics of the first references of a config have been added. */
  ghost predicate Scanned(
    w: Workspace, p: Path, rs: seq<Reference>, render: Violation -> string,
    waiting: seq<Path>, reported: seq<string>, pending: seq<Path>, lines: seq<string>)
  {
    p in w.configs && pending == waiting + Targets(w, p, rs) && lines == reported + Rendered(Violations(w, p, rs), render)
  }

  lemma ScanOneMore(
    w: Workspace, p: Path, rs: seq<Reference>, r: Reference, render: Violation -> string,
    waiting: seq<Path>, reported: seq<string>, pending: seq<Path>, lines: seq<string>)
    requires Scanned(w, p, rs, render, waiting, reported, pending, lines)
    ensures match Mismatch(w, p, r)
            case None => Scanned(w, p, rs + [r], render, waiting, reported, pending + [r.target], lines)
            case Some(bad) => Scanned(w, p, rs + [r], render, waiting, reported, pending, lines + [render(bad)])
  {
    assert (rs + [r])[..|rs|] == rs;
    RenderedAppend(Violations(w, p, rs), Mismatch(w, p, r), render);
  }

  lemma RenderedAppend(vs: seq<Violation>, bad: Option<Violation>, render: Violation -> string)
    ensures bad.Some? ==> Rendered(vs + [bad.value], render) == Rendered(vs, render) + [render(bad.value)]
  {
    if bad.Some? { assert (vs + [bad.value])[..|vs|] == vs; }
  }

  /** The test of one reference, as the loop makes it with the face at hand. */
  function CheckReference(w: Workspace, p: Path, face: Option<Face>, r: Reference): (bad: Option<Violation>)
    requires p in w.configs && face == ProjectFace(w, p, {})
    ensures bad == Mismatch(w, p, r)
  {
    var splitRoot := ContainingSplitRoot(w, r.target);
    if splitRoot.None? then None
    else if face.None? then Some(Violation(p, r.text, splitRoot.value, None))
    else if r.target != splitRoot.value + [LeafName(face.value)] then Some(Violation(p, r.text, splitRoot.value, face))
    else None
  }

  /** One visited config: its mismatches are reported, its other targets wait. */
  method ScanReferences(w: Workspace, p: Path, face: Option<Face>, waiting: seq<Path>, reported: seq<string>, render: Violation -> string)
    returns (pending: seq<Path>, lines: seq<string>)
    requires p in w.configs && face == ProjectFace(w, p, {})
    ensures Scanned(w, p, w.configs[p].references, render, waiting, reported, pending, lines)
  {
    var rs := w.configs[p].references;
    pending, lines := waiting, reported;
    for i := 0 to |rs|
      invariant Scanned(w, p, rs[..i], render, waiting, reported, pending, lines)
    {
      TakeOneMore(rs, i);
      ScanOneMore(w, p, rs[..i], rs[i], render, waiting, reported, pending, lines);
      var bad := CheckReference(w, p, face, rs[i]);
      if bad.Some? {
        lines := lines + [render(bad.value)];
        continue;
      }
      pending := pending + [rs[i].target];
    }
    assert rs[..|rs|] == rs;
  }

  /** The loop's variables between two configs. */
  ghost predicate Walking(
    w: Workspace, render: Violation -> string, visited: set<Path>, pending: seq<Path>, order: seq<Path>, violations: seq<string>)
  {
    && Underway(w, visited, pending)
    && Distinct(order) && Elements(order) == visited
    && violations == Gather(order, Lines(w, render))
  }

  lemma VisitNew(
    w: Workspace, render: Violation -> string, visited: set<Path>, rest: seq<Path>, order: seq<Path>, violations: seq<string>,
    p: Path, pending: seq<Path>, lines: seq<string>)
    requires Walking(w, render, visited, rest + [p], order, violations) && p in w.configs && p !in visited
    requires Scanned(w, p, w.configs[p].references, render, rest, violations, pending, lines)
    ensures Walking(w, render, visited + {p}, pending, order + [p], lines)
  {
    PopNew(w, visited, rest, p);
    GatherNext(order, p, Lines(w, render));
  }

  lemma GatherNext<T, U>(order: seq<T>, x: T, f: T -> seq<U>)
    requires Distinct(order) && x !in Elements(order)
    ensures Gather(order + [x], f) == Gather(order, f) + f(x)
    ensures Distinct(order + [x]) && Elements(order + [x]) == Elements(order) + {x}
  {
    assert (order + [x])[..|order|] == order;
    assert forall y | y in order :: y in Elements(order);
  }

  lemma WalkEnds(w: Workspace, render: Violation -> string, visited: set<Path>, order: seq<Path>, violations: seq<string>)
    requires Walking(w, render, visited, [], order, violations)
    ensures Enumerates(w, order)
  {
    forall p ensures p in order <==> p in w.configs && Reachable(w, p) {
      DoneIsReachable(w, visited, p);
      assert p in order <==> p in Elements(order);
    }
  }

  /** The whole traversal, the last waiting config first. */
  method CollectProjectReferenceFaceViolations(w: Workspace, render: Violation -> string)
    returns (report: seq<string>)
    ensures forall line {:trigger Reported(w, render, line)} :: line in report <==> Reported(w, render, line)
    ensures forall order {:trigger Enumerates(w, order)} | Enumerates(w, order) :: report == Report(w, order, render)
    ensures exists order :: Enumerates(w, order)
  {
    ghost var order: seq<Path> := [];
    var violations: seq<string> := [];
    var pending := [w.root + [HOST_CONFIG], w.root + [CLIENT_CONFIG]];
    var visited: set<Path> := {};
    StartUnderway(w);
    while pending != []
      invariant Walking(w, render, visited, pending, order, violations)
      decreases |w.configs.Keys - visited|, |pending|
    {
      var rest, configPath := pending[..|pending| - 1], pending[|pending| - 1];
      LastElement(pending);
      if configPath in visited || configPath !in w.configs {
        PopKnown(w, visited, rest, configPath);
        pending := rest;
        continue;
      }
      FewerUnseen(w, configPath, visited);
      var face := ProjectFace(w, configPath, {});
      var more, lines := ScanReferences(w, configPath, face, rest, violations, render);
      VisitNew(w, render, visited, rest, order, violations, configPath, more, lines);
      visited, pending, violations, order := visited + {configPath}, more, lines, order + [configPath];
    }
    WalkEnds(w, render, visited, order, violations);
    report := Sort(violations, ByCharacters());
    ReportStands(w, render, order, report);
  }

  lemma ReportStands(w: Workspace, render: Violation -> string, order: seq<Path>, report: seq<string>)
    requires Enumerates(w, order) && report == Report(w, order, render)
    ensures forall line {:trigger Reported(w, render, line)} :: line in report <==> Reported(w, render, line)
    ensures forall other {:trigger Enumerates(w, other)} | Enumerates(w, other) :: report == Report(w, other, render)
  {
    forall line ensures line in report <==> Reported(w, render, line) { ReportIsExact(w, order, render, line); }
    forall other | Enumerates(w, other) ensures report == Report(w, other, render) {
      ReportIgnoresOrder(w, order, other, render);
    }
  }
}
