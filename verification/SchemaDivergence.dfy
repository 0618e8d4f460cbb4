/**
 * When the schema-path walk of scripts/gen-config-catalog.ts overflows: every
 * declaration it enters is followed along the references that consume no key,
 * so a cycle of those through an indexed access never ends.
 */
module SchemaDivergence {
  import opened Prelude
  import opened SchemaPath
  import opened SchemaTermination
  import opened SchemaGrowth

  // ---- References that are followed whatever the path ----

  /** The walk follows this node to the target on any path, j steps longer. */
  ghost predicate Follows(w: World, file: string, node: Node, target: DeclId, j: nat) {
    match node
    case Parenthesized(inner) => Follows(w, file, inner, target, j)
    case TypeOperator(_, inner) => Follows(w, file, inner, target, j)
    case Intersection(parts) => exists part | part in parts :: Follows(w, file, part, target, j)
    case Union(parts) => exists part | part in parts :: Follows(w, file, part, target, j)
    case IndexedAccess(owner, index) => index.Some? && j >= 1 && Follows(w, file, owner, target, j - 1)
    case TypeReference(head, qualified, args) =>
      if head in PASSTHROUGH_WRAPPERS && args != [] then Follows(w, file, args[0], target, j)
      else !(head in ARRAYS && args != []) && !qualified && Resolve(w, file, head) == Some(target) && j == 0
    case _ => false
  }

  /** From one alias to a declaration that the guard records. */
  ghost predicate Leads(w: World, d: DeclId, target: DeclId, j: nat) {
    && d in w.decls && w.decls[d].Alias? && Follows(w, d.file, w.decls[d].body, target, j)
    && target in w.decls && !w.decls[target].Enum?
  }

  /** Every declaration entered since `base` has been followed. */
  ghost predicate Closed(w: World, base: Seen, after: Seen) {
    forall d, k: nat, target, j: nat {:trigger Leads(w, d, target, j), (d, k) in after} |
      (d, k) in after && (d, k) !in base && Leads(w, d, target, j) :: (target, k + j) in after
  }

  lemma ClosedTwice(w: World, seen: Seen, between: Seen, after: Seen)
    requires seen <= between <= after && Closed(w, seen, between) && Closed(w, between, after)
    ensures Closed(w, seen, after)
  {
    forall d, k: nat, target, j: nat | (d, k) in after && (d, k) !in seen && Leads(w, d, target, j) ensures (target, k + j) in after {
      if (d, k) in between { assert (target, k + j) in between; }
    }
  }

  /** The targets a node leads to have been entered. */
  ghost predicate Entered(w: World, file: string, node: Node, length: nat, after: Seen) {
    forall target, j: nat {:trigger Follows(w, file, node, target, j)} |
      Follows(w, file, node, target, j) && target in w.decls && !w.decls[target].Enum? :: (target, length + j) in after
  }

  lemma {:induction false} FollowsDecl(w: World, depth: nat, d: DeclId, steps: seq<Step>, seen: Seen)
    requires LookupDecl(w, depth, d, steps, seen).0 != Overflow
    ensures var after := LookupDecl(w, depth, d, steps, seen).1;
            && seen <= after && Closed(w, seen, after)
            && (steps != [] && d in w.decls && !w.decls[d].Enum? ==> (d, |steps|) in after)
    decreases depth, 0
  {
    if steps != [] && d in w.decls && !w.decls[d].Enum? && (d, |steps|) !in seen {
      var visited := seen + {(d, |steps|)};
      match w.decls[d]
      case Alias(_, body) =>
        FollowsNode(w, depth - 1, d.file, body, steps, visited);
        EnteringCloses(w, d, |steps|, seen, LookupDecl(w, depth, d, steps, seen).1);
      case Interface(_, members, bases) =>
        if steps[0].Member? {
          var p := PropertyNamed(members, steps[0].name);
          if p.Some? {
            FollowsProperty(w, depth - 1, d.file, p.value, steps, visited);
          } else {
            FollowsBases(w, depth - 1, d.file, bases, steps, visited);
          }
        }
    }
  }

  lemma EnteringCloses(w: World, d: DeclId, k: nat, seen: Seen, after: Seen)
    requires d in w.decls && w.decls[d].Alias? && Entered(w, d.file, w.decls[d].body, k, after)
    requires seen + {(d, k)} <= after && Closed(w, seen + {(d, k)}, after)
    ensures Closed(w, seen, after)
  {
  }

  lemma {:induction false} FollowsProperty(w: World, depth: nat, file: string, p: TypeElement, steps: seq<Step>, seen: Seen)
    requires steps != [] && LookupProperty(w, depth, file, p, steps, seen).0 != Overflow
    ensures var after := LookupProperty(w, depth, file, p, steps, seen).1; seen <= after && Closed(w, seen, after)
    decreases depth, 1
  {
    if |steps| > 1 && p.Property? && p.declared.Some? {
      FollowsNode(w, depth, file, p.declared.value, steps[1..], seen);
    }
  }

  lemma {:induction false} FollowsBases(w: World, depth: nat, file: string, bases: seq<Base>, steps: seq<Step>, seen: Seen)
    requires Overflow !in LookupBases(w, depth, file, bases, steps, seen).0
    ensures var after := LookupBases(w, depth, file, bases, steps, seen).1; seen <= after && Closed(w, seen, after)
    decreases depth, |bases| + 1
  {
    if bases != [] {
      var results := LookupBases(w, depth, file, bases, steps, seen).0;
      assert results[0] != Overflow;
      var target := if bases[0].NamedBase? then Resolve(w, file, bases[0].name) else None;
      if target.Some? { FollowsDecl(w, depth, target.value, steps, seen); }
      var between := if target.None? then seen else LookupDecl(w, depth, target.value, steps, seen).1;
      assert LookupBases(w, depth, file, bases[1..], steps, between).0 == results[1..];
      FollowsBases(w, depth, file, bases[1..], steps, between);
      ClosedTwice(w, seen, between, LookupBases(w, depth, file, bases, steps, seen).1);
    }
  }

  lemma {:induction false} FollowsAll(w: World, depth: nat, file: string, nodes: seq<Node>, steps: seq<Step>, seen: Seen)
    requires steps != [] && Overflow !in LookupAll(w, depth, file, nodes, steps, seen).0
    ensures var after := LookupAll(w, depth, file, nodes, steps, seen).1;
            seen <= after && Closed(w, seen, after) && forall node | node in nodes :: Entered(w, file, node, |steps|, after)
    decreases depth, |nodes| + 1
  {
    if nodes != [] {
      var results := LookupAll(w, depth, file, nodes, steps, seen).0;
      assert results[0] != Overflow;
      FollowsNode(w, depth, file, nodes[0], steps, seen);
      var between := LookupNode(w, depth, file, nodes[0], steps, seen).1;
      assert LookupAll(w, depth, file, nodes[1..], steps, between).0 == results[1..];
      FollowsAll(w, depth, file, nodes[1..], steps, between);
      ClosedTwice(w, seen, between, LookupAll(w, depth, file, nodes, steps, seen).1);
      forall node | node in nodes ensures Entered(w, file, node, |steps|, LookupAll(w, depth, file, nodes, steps, seen).1) {
        assert node == nodes[0] || node in nodes[1..];
      }
    }
  }

  lemma {:induction false} FollowsNode(w: World, depth: nat, file: string, node: Node, steps: seq<Step>, seen: Seen)
    requires LookupNode(w, depth, file, node, steps, seen).0 != Overflow
    ensures var after := LookupNode(w, depth, file, node, steps, seen).1;
            seen <= after && Closed(w, seen, after) && (steps != [] ==> Entered(w, file, node, |steps|, after))
    decreases depth, 0
  {
    if steps != [] {
      match node
      case TypeLiteral(members) =>
        if steps[0].Member? && PropertyNamed(members, steps[0].name).Some? {
          FollowsProperty(w, depth - 1, file, PropertyNamed(members, steps[0].name).value, steps, seen);
        }
      case Parenthesized(inner) => FollowsNode(w, depth - 1, file, inner, steps, seen);
      case TypeOperator(_, inner) => FollowsNode(w, depth - 1, file, inner, steps, seen);
      case Intersection(parts) => FollowsAll(w, depth - 1, file, parts, steps, seen);
      case Union(parts) => FollowsAll(w, depth - 1, file, parts, steps, seen);
      case ArrayType(element) =>
        if steps[0].Element? { FollowsNode(w, depth - 1, file, element, steps[1..], seen); }
      case IndexedAccess(owner, index) =>
        if index.Some? { FollowsNode(w, depth - 1, file, owner, [Member(index.value)] + steps, seen); }
      case TypeReference(head, qualified, args) =>
        if head in PASSTHROUGH_WRAPPERS && args != [] {
          FollowsNode(w, depth - 1, file, args[0], steps, seen);
        } else if head in ARRAYS && args != [] {
          if steps[0].Element? { FollowsNode(w, depth - 1, file, args[0], steps[1..], seen); }
        } else if !qualified && Resolve(w, file, head).Some? {
          FollowsDecl(w, depth - 1, Resolve(w, file, head).value, steps, seen);
        }
      case OtherType =>
    }
  }

  // ---- A growing cycle never ends ----

  ghost predicate IsWalk(w: World, p: seq<DeclId>, pushes: seq<nat>) {
    p != [] && |pushes| == |p| - 1 && forall i | 0 <= i < |pushes| :: Leads(w, p[i], p[i + 1], pushes[i])
  }

  function Total(pushes: seq<nat>): nat {
    if pushes == [] then 0 else Total(pushes[..|pushes| - 1]) + pushes[|pushes| - 1]
  }

  /** What was entered at one end of a walk was entered, longer, at the other. */
  lemma {:induction false} WalkIsEntered(w: World, after: Seen, p: seq<DeclId>, pushes: seq<nat>, k: nat)
    requires Closed(w, {}, after) && IsWalk(w, p, pushes) && (p[0], k) in after
    ensures (p[|p| - 1], k + Total(pushes)) in after
    decreases |p|
  {
    if |p| > 1 {
      WalkIsEntered(w, after, p[..|p| - 1], pushes[..|pushes| - 1], k);
      assert Leads(w, p[|p| - 2], p[|p| - 1], pushes[|pushes| - 1]);
    }
  }

  /** In a finite set of guard keys, one declaration has a longest path. */
  lemma {:induction false} LongestEntry(after: Seen, d: DeclId, k: nat) returns (most: nat)
    requires (d, k) in after
    ensures (d, most) in after && forall n: nat | (d, n) in after :: n <= most
    decreases after
  {
    var rest := after - {(d, k)};
    if n: nat :| (d, n) in rest {
      var other := LongestEntry(rest, d, n);
      most := Max(k, other);
      forall n: nat | (d, n) in after ensures n <= most {
        assert n == k || (d, n) in rest;
      }
    } else {
      most := k;
      forall n: nat | (d, n) in after ensures n <= most {
        assert n == k || (d, n) in rest;
      }
    }
  }

  /**
   * A cycle of references that are followed on any path and go through an
   * indexed access: every stack overflows, on every path that is not empty.
   */
  lemma GrowingCycleOverflows(w: World, p: seq<DeclId>, pushes: seq<nat>, depth: nat, steps: seq<Step>)
    requires IsWalk(w, p, pushes) && p[0] == p[|p| - 1] && Total(pushes) >= 1 && steps != []
    ensures LookupDecl(w, depth, p[0], steps, {}).0 == Overflow
  {
    if LookupDecl(w, depth, p[0], steps, {}).0 != Overflow {
      var after := LookupDecl(w, depth, p[0], steps, {}).1;
      assert |p| > 1 && Leads(w, p[0], p[1], pushes[0]);
      FollowsDecl(w, depth, p[0], steps, {});
      var most := LongestEntry(after, p[0], |steps|);
      WalkIsEntered(w, after, p, pushes, most);
      assert false;
    }
  }

  // ---- Exactness where paths are not consumed ----

  /** A node that consumes no key: no object types and no arrays. */
  ghost predicate Straight(node: Node) {
    match node
    case TypeLiteral(_) => false
    case Parenthesized(inner) => Straight(inner)
    case TypeOperator(_, inner) => Straight(inner)
    case Intersection(parts) => forall part | part in parts :: Straight(part)
    case Union(parts) => forall part | part in parts :: Straight(part)
    case ArrayType(_) => false
    case IndexedAccess(owner, _) => Straight(owner)
    case TypeReference(head, _, args) => !(head in ARRAYS && args != []) && forall arg | arg in args :: Straight(arg)
    case OtherType => true
  }

  ghost predicate StraightWorld(w: World) {
    forall d | d in w.decls :: w.decls[d].Enum? || (w.decls[d].Alias? && Straight(w.decls[d].body))
  }

  lemma {:induction false} RefersFollows(w: World, file: string, node: Node, target: DeclId, j: nat)
    requires Straight(node) && Refers(w, file, node, target, j)
    ensures Follows(w, file, node, target, j)
  {
    match node
    case Parenthesized(inner) => RefersFollows(w, file, inner, target, j);
    case TypeOperator(_, inner) => RefersFollows(w, file, inner, target, j);
    case Intersection(parts) =>
      var part :| part in parts && Refers(w, file, part, target, j);
      RefersFollows(w, file, part, target, j);
    case Union(parts) =>
      var part :| part in parts && Refers(w, file, part, target, j);
      RefersFollows(w, file, part, target, j);
    case IndexedAccess(owner, _) => RefersFollows(w, file, owner, target, j - 1);
    case TypeReference(head, qualified, args) =>
      if head in PASSTHROUGH_WRAPPERS && args != [] { RefersFollows(w, file, args[0], target, j); }
    case OtherType =>
  }

  lemma LinkIsStep(w: World, d: DeclId, target: DeclId, j: nat)
    requires StraightWorld(w) && Link(w, d, target, j) && target in w.decls && !w.decls[target].Enum?
    ensures Leads(w, d, target, j)
  {
    RefersFollows(w, d.file, w.decls[d].body, target, j);
  }

  /** A trail to an alias is a walk. */
  lemma {:induction false} TrailIsWalk(w: World, p: seq<DeclId>) returns (pushes: seq<nat>)
    requires StraightWorld(w) && IsTrail(w, p) && p[|p| - 1] in w.decls && !w.decls[p[|p| - 1]].Enum?
    ensures IsWalk(w, p, pushes)
    decreases |p|
  {
    if |p| == 1 {
      pushes := [];
    } else {
      assert Linked(w, p[0], p[1]);
      var rest := p[1..];
      forall i | 0 < i < |rest| ensures Linked(w, rest[i - 1], rest[i]) { assert Linked(w, p[i], p[i + 1]); }
      var later := TrailIsWalk(w, rest);
      var j: nat :| Link(w, p[0], p[1], j);
      assert |rest| > 1 ==> Leads(w, rest[0], rest[1], later[0]);
      LinkIsStep(w, p[0], p[1], j);
      pushes := [j] + later;
      forall i | 0 <= i < |pushes| ensures Leads(w, p[i], p[i + 1], pushes[i]) {
        assert i > 0 ==> Leads(w, rest[i - 1], rest[i], later[i - 1]);
      }
    }
  }

  lemma {:induction false} TotalCons(j: nat, pushes: seq<nat>)
    ensures Total([j] + pushes) == j + Total(pushes)
  {
    if pushes != [] {
      TotalCons(j, pushes[..|pushes| - 1]);
      assert ([j] + pushes)[..|pushes|] == [j] + pushes[..|pushes| - 1];
    } else {
      assert ([j] + pushes)[..0] == [];
    }
  }

  /** A growing cycle of such a world makes the declaration on it overflow on every path. */
  lemma CycleOverflows(w: World, a: DeclId, b: DeclId, j: nat, depth: nat, steps: seq<Step>)
    requires StraightWorld(w) && Link(w, a, b, j) && j >= 1 && Reaches(w, b, a) && steps != []
    ensures LookupDecl(w, depth, a, steps, {}).0 == Overflow
  {
    var p :| IsTrail(w, p) && p[0] == b && p[|p| - 1] == a;
    var later := TrailIsWalk(w, p);
    assert |p| > 1 ==> Leads(w, p[0], p[1], later[0]);
    LinkIsStep(w, a, b, j);
    var q, pushes := [a] + p, [j] + later;
    forall i | 0 <= i < |pushes| ensures Leads(w, q[i], q[i + 1], pushes[i]) {
      assert i > 0 ==> Leads(w, p[i - 1], p[i], later[i - 1]);
    }
    TotalCons(j, later);
    GrowingCycleOverflows(w, q, pushes, depth, steps);
  }

  ghost predicate Returns(w: World, d: DeclId, steps: seq<Step>) {
    exists depth: nat :: LookupDecl(w, depth, d, steps, {}).0 != Overflow
  }

  /**
   * Where declarations are aliases without object types or arrays, the walk
   * returns on every query exactly when no cycle of references goes through an
   * indexed access.
   */
  lemma TerminationIsExact(w: World)
    requires StraightWorld(w)
    ensures (forall d, steps :: Returns(w, d, steps)) <==> NoGrowingCycle(w)
  {
    if NoGrowingCycle(w) {
      forall d, steps ensures Returns(w, d, steps) {
        var bound := WalkTerminates(w, d, steps, {});
      }
    } else {
      var a, b, j: nat :| Link(w, a, b, j) && j >= 1 && Reaches(w, b, a);
      var steps := [Element];
      forall depth: nat ensures LookupDecl(w, depth, a, steps, {}).0 == Overflow {
        CycleOverflows(w, a, b, j, depth, steps);
      }
      assert !Returns(w, a, steps);
    }
  }
}
