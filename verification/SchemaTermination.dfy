/**
 * When the schema-path walk terminates. A named declaration can be entered only
 * once per remaining path length, so the call stack is bounded as long as the
 * path is; indexed access lengthens the path, and can do so for ever.
 */
module SchemaTermination {
  import opened Prelude
  import opened SchemaPath

  function Max(a: nat, b: nat): nat {
    if a < b then b else a
  }

  function Height(node: Node): nat {
    1 + match node
        case TypeLiteral(members) => ElementsHeight(members)
        case Parenthesized(inner) => Height(inner)
        case TypeOperator(_, inner) => Height(inner)
        case Intersection(parts) => NodesHeight(parts)
        case Union(parts) => NodesHeight(parts)
        case ArrayType(element) => Height(element)
        case IndexedAccess(owner, _) => Height(owner)
        case TypeReference(_, _, args) => NodesHeight(args)
        case OtherType => 0
  }

  function ElementHeight(e: TypeElement): nat {
    if e.Property? && e.declared.Some? then Height(e.declared.value) else 0
  }

  function ElementsHeight(members: seq<TypeElement>): nat {
    if members == [] then 0 else Max(ElementHeight(members[0]), ElementsHeight(members[1..]))
  }

  function NodesHeight(nodes: seq<Node>): nat {
    if nodes == [] then 0 else Max(Height(nodes[0]), NodesHeight(nodes[1..]))
  }

  function DeclHeight(decl: Decl): nat {
    match decl
    case Alias(_, body) => Height(body)
    case Interface(_, members, _) => ElementsHeight(members)
    case Enum => 0
  }

  // ---- Budgets: how much longer the path may still get ----

  type Budget = map<DeclId, nat>

  function Owed(budget: Budget, d: DeclId): nat {
    if d in budget then budget[d] else 0
  }

  /** Walking a node lengthens the path by at most b; each key or element hop consumed gives one back. */
  ghost predicate Affords(w: World, budget: Budget, file: string, node: Node, b: nat) {
    match node
    case TypeLiteral(members) => forall e | e in members :: AffordsElement(w, budget, file, e, b)
    case Parenthesized(inner) => Affords(w, budget, file, inner, b)
    case TypeOperator(_, inner) => Affords(w, budget, file, inner, b)
    case Intersection(parts) => forall part | part in parts :: Affords(w, budget, file, part, b)
    case Union(parts) => forall part | part in parts :: Affords(w, budget, file, part, b)
    case ArrayType(element) => Affords(w, budget, file, element, b + 1)
    case IndexedAccess(owner, index) => index.Some? ==> b >= 1 && Affords(w, budget, file, owner, b - 1)
    case TypeReference(head, qualified, args) =>
      if head in PASSTHROUGH_WRAPPERS && args != [] then Affords(w, budget, file, args[0], b)
      else if head in ARRAYS && args != [] then Affords(w, budget, file, args[0], b + 1)
      else !qualified && Resolve(w, file, head).Some? ==> Owed(budget, Resolve(w, file, head).value) <= b
    case OtherType => true
  }

  ghost predicate AffordsElement(w: World, budget: Budget, file: string, e: TypeElement, b: nat) {
    e.Property? && e.declared.Some? ==> Affords(w, budget, file, e.declared.value, b + 1)
  }

  ghost predicate AffordsBase(w: World, budget: Budget, file: string, base: Base, b: nat) {
    base.NamedBase? && Resolve(w, file, base.name).Some? ==> Owed(budget, Resolve(w, file, base.name).value) <= b
  }

  ghost predicate AffordsDecl(w: World, budget: Budget, d: DeclId)
    requires d in w.decls
  {
    match w.decls[d]
    case Alias(_, body) => Affords(w, budget, d.file, body, Owed(budget, d))
    case Interface(_, members, bases) =>
      && (forall e | e in members :: AffordsElement(w, budget, d.file, e, Owed(budget, d)))
      && (forall base | base in bases :: AffordsBase(w, budget, d.file, base, Owed(budget, d)))
    case Enum => true
  }

  /** Each declaration stays within its budget: the certificate of termination. */
  ghost predicate WithinBudget(w: World, budget: Budget) {
    forall d | d in w.decls :: AffordsDecl(w, budget, d)
  }

  ghost predicate TameDecl(w: World, budget: Budget, h: nat, d: DeclId) {
    d in w.decls ==> AffordsDecl(w, budget, d) && DeclHeight(w.decls[d]) <= h
  }

  /** Every declaration is within its budget, and h bounds their heights. */
  ghost predicate Tame(w: World, budget: Budget, h: nat) {
    forall d {:trigger TameDecl(w, budget, h, d)} :: TameDecl(w, budget, h, d)
  }

  /** The guard keys that paths of length at most l can use. */
  function Keys(w: World, l: nat): Seen {
    set d, k | d in w.decls.Keys && 1 <= k <= l :: (d, k)
  }

  /** How much of the stack the declarations not yet entered can use. */
  function Reserve(w: World, h: nat, l: nat, seen: Seen): nat {
    |Keys(w, l) - seen| * (h + 2)
  }

  lemma ReserveFalls(w: World, h: nat, l: nat, seen: Seen, more: Seen)
    requires seen <= more
    ensures Reserve(w, h, l, more) <= Reserve(w, h, l, seen)
  {
    SubsetSize(Keys(w, l) - more, Keys(w, l) - seen);
    MulMonotone(|Keys(w, l) - more|, |Keys(w, l) - seen|, h + 2);
  }

  lemma MulMonotone(a: nat, b: nat, c: nat)
    requires a <= b
    ensures a * c <= b * c
  {
  }

  lemma EnteringUsesReserve(w: World, h: nat, l: nat, d: DeclId, k: nat, seen: Seen)
    requires d in w.decls && 1 <= k <= l && (d, k) !in seen
    ensures Reserve(w, h, l, seen + {(d, k)}) + h + 2 == Reserve(w, h, l, seen)
  {
    assert (d, k) in Keys(w, l);
    assert Keys(w, l) - (seen + {(d, k)}) == Keys(w, l) - seen - {(d, k)};
    var rest := |Keys(w, l) - seen| - 1;
    assert (rest + 1) * (h + 2) == rest * (h + 2) + (h + 2);
  }

  lemma {:induction false} ElementsHeightBounds(members: seq<TypeElement>, e: TypeElement)
    requires e in members
    ensures ElementHeight(e) <= ElementsHeight(members)
  {
    if e != members[0] { ElementsHeightBounds(members[1..], e); }
  }

  // ---- Enough stack ----

  lemma {:induction false} EnoughDecl(
    w: World, budget: Budget, h: nat, l: nat, depth: nat, d: DeclId, steps: seq<Step>, seen: Seen)
    requires Tame(w, budget, h) && |steps| + Owed(budget, d) <= l && depth >= Reserve(w, h, l, seen) + 1
    ensures LookupDecl(w, depth, d, steps, seen).0 != Overflow
    ensures seen <= LookupDecl(w, depth, d, steps, seen).1
    decreases depth, 0
  {
    assert TameDecl(w, budget, h, d);
    if steps != [] && d in w.decls && (d, |steps|) !in seen {
      var visited, b := seen + {(d, |steps|)}, Owed(budget, d);
      EnteringUsesReserve(w, h, l, d, |steps|, seen);
      match w.decls[d]
      case Alias(_, body) => EnoughNode(w, budget, h, l, depth - 1, d.file, body, b, steps, visited);
      case Interface(_, members, bases) =>
        if steps[0].Member? { EnoughInterface(w, budget, h, l, depth - 1, d, steps, visited); }
      case Enum =>
    }
  }

  /** The members and bases of an interface that has just been entered. */
  lemma {:induction false} EnoughInterface(
    w: World, budget: Budget, h: nat, l: nat, depth: nat, d: DeclId, steps: seq<Step>, seen: Seen)
    requires Tame(w, budget, h) && d in w.decls && w.decls[d].Interface? && steps != [] && steps[0].Member?
    requires |steps| + Owed(budget, d) <= l && depth >= Reserve(w, h, l, seen) + h + 2
    ensures var p := PropertyNamed(w.decls[d].members, steps[0].name);
            if p.Some? then
              var r := LookupProperty(w, depth, d.file, p.value, steps, seen);
              r.0 != Overflow && seen <= r.1
            else
              var r := LookupBases(w, depth, d.file, w.decls[d].bases, steps, seen);
              Overflow !in r.0 && seen <= r.1
    decreases depth, |w.decls[d].bases| + 3
  {
    assert TameDecl(w, budget, h, d);
    var p := PropertyNamed(w.decls[d].members, steps[0].name);
    if p.Some? {
      ElementsHeightBounds(w.decls[d].members, p.value);
      EnoughProperty(w, budget, h, l, depth, d.file, p.value, Owed(budget, d), steps, seen);
    } else {
      EnoughBases(w, budget, h, l, depth, d.file, w.decls[d].bases, Owed(budget, d), steps, seen);
    }
  }

  lemma {:induction false} EnoughProperty(
    w: World, budget: Budget, h: nat, l: nat, depth: nat, file: string, p: TypeElement, b: nat, steps: seq<Step>, seen: Seen)
    requires Tame(w, budget, h) && steps != [] && |steps| + b <= l && AffordsElement(w, budget, file, p, b)
    requires depth >= Reserve(w, h, l, seen) + ElementHeight(p) + 1
    ensures LookupProperty(w, depth, file, p, steps, seen).0 != Overflow
    ensures seen <= LookupProperty(w, depth, file, p, steps, seen).1
    decreases depth, 2
  {
    if |steps| > 1 && p.Property? && p.declared.Some? {
      EnoughNode(w, budget, h, l, depth, file, p.declared.value, b + 1, steps[1..], seen);
    }
  }

  lemma {:induction false} EnoughBases(
    w: World, budget: Budget, h: nat, l: nat, depth: nat, file: string, bases: seq<Base>, b: nat, steps: seq<Step>, seen: Seen)
    requires Tame(w, budget, h) && |steps| + b <= l && depth >= Reserve(w, h, l, seen) + 1
    requires forall base | base in bases :: AffordsBase(w, budget, file, base, b)
    ensures Overflow !in LookupBases(w, depth, file, bases, steps, seen).0
    ensures seen <= LookupBases(w, depth, file, bases, steps, seen).1
    decreases depth, |bases| + 2
  {
    if bases != [] {
      var target := if bases[0].NamedBase? then Resolve(w, file, bases[0].name) else None;
      assert AffordsBase(w, budget, file, bases[0], b);
      if target.Some? { EnoughDecl(w, budget, h, l, depth, target.value, steps, seen); }
      var between := if target.None? then seen else LookupDecl(w, depth, target.value, steps, seen).1;
      ReserveFalls(w, h, l, seen, between);
      EnoughBases(w, budget, h, l, depth, file, bases[1..], b, steps, between);
    }
  }

  lemma {:induction false} EnoughAll(
    w: World, budget: Budget, h: nat, l: nat, depth: nat, file: string, nodes: seq<Node>, b: nat, steps: seq<Step>, seen: Seen)
    requires Tame(w, budget, h) && |steps| + b <= l && forall node | node in nodes :: Affords(w, budget, file, node, b)
    requires depth >= Reserve(w, h, l, seen) + NodesHeight(nodes) + 1
    ensures Overflow !in LookupAll(w, depth, file, nodes, steps, seen).0
    ensures seen <= LookupAll(w, depth, file, nodes, steps, seen).1
    decreases depth, |nodes| + 2
  {
    if nodes != [] {
      EnoughNode(w, budget, h, l, depth, file, nodes[0], b, steps, seen);
      var between := LookupNode(w, depth, file, nodes[0], steps, seen).1;
      ReserveFalls(w, h, l, seen, between);
      EnoughAll(w, budget, h, l, depth, file, nodes[1..], b, steps, between);
    }
  }

  lemma {:induction false} EnoughReference(
    w: World, budget: Budget, h: nat, l: nat, depth: nat, file: string, node: Node, b: nat, steps: seq<Step>, seen: Seen)
    requires Tame(w, budget, h) && steps != [] && |steps| + b <= l
    requires node.TypeReference? && Affords(w, budget, file, node, b)
    requires depth >= Reserve(w, h, l, seen) + Height(node) + 1
    ensures LookupNode(w, depth, file, node, steps, seen).0 != Overflow
    ensures seen <= LookupNode(w, depth, file, node, steps, seen).1
    decreases depth, 0
  {
    if node.head in PASSTHROUGH_WRAPPERS && node.args != [] {
      EnoughNode(w, budget, h, l, depth - 1, file, node.args[0], b, steps, seen);
    } else if node.head in ARRAYS && node.args != [] {
      EnoughNode(w, budget, h, l, depth - 1, file, node.args[0], b + 1, steps[1..], seen);
    } else if !node.qualified && Resolve(w, file, node.head).Some? {
      EnoughDecl(w, budget, h, l, depth - 1, Resolve(w, file, node.head).value, steps, seen);
    }
  }

  lemma {:induction false} EnoughLiteral(
    w: World, budget: Budget, h: nat, l: nat, depth: nat, file: string, node: Node, b: nat, steps: seq<Step>, seen: Seen)
    requires Tame(w, budget, h) && steps != [] && |steps| + b <= l
    requires node.TypeLiteral? && Affords(w, budget, file, node, b)
    requires depth >= Reserve(w, h, l, seen) + Height(node) + 1
    ensures LookupNode(w, depth, file, node, steps, seen).0 != Overflow
    ensures seen <= LookupNode(w, depth, file, node, steps, seen).1
    decreases depth, 0
  {
    if steps[0].Member? && PropertyNamed(node.members, steps[0].name).Some? {
      var p := PropertyNamed(node.members, steps[0].name).value;
      ElementsHeightBounds(node.members, p);
      EnoughProperty(w, budget, h, l, depth - 1, file, p, b, steps, seen);
    }
  }

  lemma {:induction false} EnoughParts(
    w: World, budget: Budget, h: nat, l: nat, depth: nat, file: string, node: Node, b: nat, steps: seq<Step>, seen: Seen)
    requires Tame(w, budget, h) && steps != [] && |steps| + b <= l
    requires (node.Intersection? || node.Union?) && Affords(w, budget, file, node, b)
    requires depth >= Reserve(w, h, l, seen) + Height(node) + 1
    ensures LookupNode(w, depth, file, node, steps, seen).0 != Overflow
    ensures seen <= LookupNode(w, depth, file, node, steps, seen).1
    decreases depth, 0
  {
    EnoughAll(w, budget, h, l, depth - 1, file, node.parts, b, steps, seen);
  }

  lemma {:induction false} EnoughIndexed(
    w: World, budget: Budget, h: nat, l: nat, depth: nat, file: string, node: Node, b: nat, steps: seq<Step>, seen: Seen)
    requires Tame(w, budget, h) && steps != [] && |steps| + b <= l
    requires node.IndexedAccess? && Affords(w, budget, file, node, b)
    requires depth >= Reserve(w, h, l, seen) + Height(node) + 1
    ensures LookupNode(w, depth, file, node, steps, seen).0 != Overflow
    ensures seen <= LookupNode(w, depth, file, node, steps, seen).1
    decreases depth, 0
  {
    if node.index.Some? {
      EnoughNode(w, budget, h, l, depth - 1, file, node.owner, b - 1, [Member(node.index.value)] + steps, seen);
    }
  }

  lemma {:induction false} EnoughNode(
    w: World, budget: Budget, h: nat, l: nat, depth: nat, file: string, node: Node, b: nat, steps: seq<Step>, seen: Seen)
    requires Tame(w, budget, h) && |steps| + b <= l && Affords(w, budget, file, node, b)
    requires depth >= Reserve(w, h, l, seen) + Height(node) + 1
    ensures LookupNode(w, depth, file, node, steps, seen).0 != Overflow
    ensures seen <= LookupNode(w, depth, file, node, steps, seen).1
    decreases depth, 1
  {
    if steps != [] {
      match node
      case TypeLiteral(_) => EnoughLiteral(w, budget, h, l, depth, file, node, b, steps, seen);
      case Parenthesized(inner) => EnoughNode(w, budget, h, l, depth - 1, file, inner, b, steps, seen);
      case TypeOperator(_, inner) => EnoughNode(w, budget, h, l, depth - 1, file, inner, b, steps, seen);
      case Intersection(_) => EnoughParts(w, budget, h, l, depth, file, node, b, steps, seen);
      case Union(_) => EnoughParts(w, budget, h, l, depth, file, node, b, steps, seen);
      case ArrayType(element) =>
        if steps[0].Element? { EnoughNode(w, budget, h, l, depth - 1, file, element, b + 1, steps[1..], seen); }
      case IndexedAccess(_, _) => EnoughIndexed(w, budget, h, l, depth, file, node, b, steps, seen);
      case TypeReference(head, qualified, args) => EnoughReference(w, budget, h, l, depth, file, node, b, steps, seen);
      case OtherType =>
    }
  }

  // ---- More stack changes no answer ----

  lemma {:induction false} DeeperDecl(w: World, depth: nat, more: nat, d: DeclId, steps: seq<Step>, seen: Seen)
    requires depth <= more && LookupDecl(w, depth, d, steps, seen).0 != Overflow
    ensures LookupDecl(w, more, d, steps, seen) == LookupDecl(w, depth, d, steps, seen)
    decreases depth, 0
  {
    if steps != [] && d in w.decls && (d, |steps|) !in seen {
      var visited := seen + {(d, |steps|)};
      match w.decls[d]
      case Alias(_, body) => DeeperNode(w, depth - 1, more - 1, d.file, body, steps, visited);
      case Interface(_, members, bases) =>
        if steps[0].Member? {
          var p := PropertyNamed(members, steps[0].name);
          if p.Some? {
            DeeperProperty(w, depth - 1, more - 1, d.file, p.value, steps, visited);
          } else {
            DeeperBases(w, depth - 1, more - 1, d.file, bases, steps, visited);
          }
        }
      case Enum =>
    }
  }

  lemma {:induction false} DeeperProperty(
    w: World, depth: nat, more: nat, file: string, p: TypeElement, steps: seq<Step>, seen: Seen)
    requires depth <= more && steps != [] && LookupProperty(w, depth, file, p, steps, seen).0 != Overflow
    ensures LookupProperty(w, more, file, p, steps, seen) == LookupProperty(w, depth, file, p, steps, seen)
    decreases depth, 1
  {
    if |steps| > 1 && p.Property? && p.declared.Some? {
      DeeperNode(w, depth, more, file, p.declared.value, steps[1..], seen);
    }
  }

  lemma {:induction false} DeeperBases(
    w: World, depth: nat, more: nat, file: string, bases: seq<Base>, steps: seq<Step>, seen: Seen)
    requires depth <= more && Overflow !in LookupBases(w, depth, file, bases, steps, seen).0
    ensures LookupBases(w, more, file, bases, steps, seen) == LookupBases(w, depth, file, bases, steps, seen)
    decreases depth, |bases| + 1
  {
    if bases != [] {
      var results := LookupBases(w, depth, file, bases, steps, seen).0;
      var target := if bases[0].NamedBase? then Resolve(w, file, bases[0].name) else None;
      assert results[0] != Overflow;
      if target.Some? { DeeperDecl(w, depth, more, target.value, steps, seen); }
      var between := if target.None? then seen else LookupDecl(w, depth, target.value, steps, seen).1;
      assert LookupBases(w, depth, file, bases[1..], steps, between).0 == results[1..];
      DeeperBases(w, depth, more, file, bases[1..], steps, between);
    }
  }

  lemma {:induction false} DeeperAll(
    w: World, depth: nat, more: nat, file: string, nodes: seq<Node>, steps: seq<Step>, seen: Seen)
    requires depth <= more && Overflow !in LookupAll(w, depth, file, nodes, steps, seen).0
    ensures LookupAll(w, more, file, nodes, steps, seen) == LookupAll(w, depth, file, nodes, steps, seen)
    decreases depth, |nodes| + 1
  {
    if nodes != [] {
      var results := LookupAll(w, depth, file, nodes, steps, seen).0;
      assert results[0] != Overflow;
      DeeperNode(w, depth, more, file, nodes[0], steps, seen);
      var between := LookupNode(w, depth, file, nodes[0], steps, seen).1;
      assert LookupAll(w, depth, file, nodes[1..], steps, between).0 == results[1..];
      DeeperAll(w, depth, more, file, nodes[1..], steps, between);
    }
  }

  lemma {:induction false} DeeperNode(
    w: World, depth: nat, more: nat, file: string, node: Node, steps: seq<Step>, seen: Seen)
    requires depth <= more && LookupNode(w, depth, file, node, steps, seen).0 != Overflow
    ensures LookupNode(w, more, file, node, steps, seen) == LookupNode(w, depth, file, node, steps, seen)
    decreases depth, 0
  {
    if steps != [] {
      match node
      case TypeLiteral(members) =>
        if steps[0].Member? && PropertyNamed(members, steps[0].name).Some? {
          DeeperProperty(w, depth - 1, more - 1, file, PropertyNamed(members, steps[0].name).value, steps, seen);
        }
      case Parenthesized(inner) => DeeperNode(w, depth - 1, more - 1, file, inner, steps, seen);
      case TypeOperator(_, inner) => DeeperNode(w, depth - 1, more - 1, file, inner, steps, seen);
      case Intersection(parts) => DeeperAll(w, depth - 1, more - 1, file, parts, steps, seen);
      case Union(parts) => DeeperAll(w, depth - 1, more - 1, file, parts, steps, seen);
      case ArrayType(element) =>
        if steps[0].Element? { DeeperNode(w, depth - 1, more - 1, file, element, steps[1..], seen); }
      case IndexedAccess(owner, index) =>
        if index.Some? { DeeperNode(w, depth - 1, more - 1, file, owner, [Member(index.value)] + steps, seen); }
      case TypeReference(head, qualified, args) =>
        if head in PASSTHROUGH_WRAPPERS && args != [] {
          DeeperNode(w, depth - 1, more - 1, file, args[0], steps, seen);
        } else if head in ARRAYS && args != [] {
          if steps[0].Element? { DeeperNode(w, depth - 1, more - 1, file, args[0], steps[1..], seen); }
        } else if !qualified && Resolve(w, file, head).Some? {
          DeeperDecl(w, depth - 1, more - 1, Resolve(w, file, head).value, steps, seen);
        }
      case OtherType =>
    }
  }

  // ---- The theorem and its limit ----

  lemma {:induction false} HeightsAreBounded(decls: map<DeclId, Decl>) returns (h: nat)
    ensures forall d | d in decls :: DeclHeight(decls[d]) <= h
    decreases |decls|
  {
    if decls == map[] {
      h := 0;
    } else {
      var d :| d in decls;
      var rest := decls - {d};
      assert decls.Keys == rest.Keys + {d};
      assert |decls.Keys| == |decls| && |rest.Keys| == |rest|;
      var others := HeightsAreBounded(rest);
      h := Max(others, DeclHeight(decls[d]));
      forall x | x in decls ensures DeclHeight(decls[x]) <= h {
        if x != d { assert x in rest && rest[x] == decls[x]; }
      }
    }
  }

  /**
   * In every finite world with a budget the walk returns, recursive
   * declarations included: some stack depth suffices for a real answer, and no
   * deeper stack changes it.
   */
  lemma WalkReturns(w: World, budget: Budget, d: DeclId, steps: seq<Step>, seen: Seen) returns (bound: nat)
    requires WithinBudget(w, budget)
    ensures LookupDecl(w, bound, d, steps, seen).0 != Overflow
    ensures forall depth: nat | depth >= bound :: LookupDecl(w, depth, d, steps, seen) == LookupDecl(w, bound, d, steps, seen)
  {
    var h := HeightsAreBounded(w.decls);
    assert Tame(w, budget, h);
    var l := |steps| + Owed(budget, d);
    bound := Reserve(w, h, l, seen) + 1;
    EnoughDecl(w, budget, h, l, bound, d, steps, seen);
    forall depth: nat | depth >= bound
      ensures LookupDecl(w, depth, d, steps, seen) == LookupDecl(w, bound, d, steps, seen)
    {
      DeeperDecl(w, bound, depth, d, steps, seen);
    }
  }

  /** `type A = A['x']` in one file. */
  function SelfIndexed(d: DeclId): World {
    World(map[d := Alias([], IndexedAccess(TypeReference("A", false, []), Some("x")))], map[(d.file, "A") := d], map[], {})
  }

  /** On `type A = A['x']` every stack overflows: each round lengthens the path, so the guard never fires. */
  lemma {:induction false} SelfIndexedOverflows(d: DeclId, depth: nat, steps: seq<Step>, seen: Seen)
    requires steps != [] && forall k | k >= |steps| :: (d, k) !in seen
    ensures LookupDecl(SelfIndexed(d), depth, d, steps, seen).0 == Overflow
    decreases depth
  {
    var w, visited := SelfIndexed(d), seen + {(d, |steps|)};
    var longer := [Member("x")] + steps;
    var reference := TypeReference("A", false, []);
    assert Resolve(w, d.file, "A") == Some(d);
    if depth >= 3 {
      SelfIndexedOverflows(d, depth - 3, longer, visited);
    }
    if depth >= 2 {
      assert LookupNode(w, depth - 2, d.file, reference, longer, visited).0 == Overflow;
    }
    if depth >= 1 {
      assert LookupNode(w, depth - 1, d.file, IndexedAccess(reference, Some("x")), steps, visited).0 == Overflow;
    }
  }

  // ---- What the shared guard costs ----

  /** `interface D { x }`, `type E = D`, `interface G { x }` in one file. */
  function Diamond(): World {
    var d, e, g := DeclId("f", 0), DeclId("f", 1), DeclId("f", 2);
    World(map[d := Interface([], [Property("x", Some("x"), None)], []),
              e := Alias([], TypeReference("D", false, [])),
              g := Interface([], [Property("x", Some("x"), None)], [])],
          map[("f", "D") := d, ("f", "E") := e, ("f", "G") := g], map[], {})
  }

  /** The interface `{ x }` has `x`, unless the walk was here before. */
  lemma LeafAnswers(w: World, depth: nat, d: DeclId, seen: Seen)
    requires depth >= 1 && d in w.decls && w.decls[d] == Interface([], [Property("x", Some("x"), None)], [])
    ensures LookupDecl(w, depth, d, [Member("x")], seen)
            == if (d, 1) in seen then (Unknown, seen) else (Found, seen + {(d, 1)})
    ensures ListedDecl(w, depth + 1, d, [Member("x")])
  {
    assert PropertyNamed([Property("x", Some("x"), None)], "x") == Some(Property("x", Some("x"), None));
  }

  lemma ReferenceAnswers(w: World, depth: nat, name: string, d: DeclId, steps: seq<Step>, seen: Seen)
    requires steps != [] && depth >= 1 && |name| == 1 && Resolve(w, "f", name) == Some(d)
    ensures LookupNode(w, depth, "f", TypeReference(name, false, []), steps, seen) == LookupDecl(w, depth - 1, d, steps, seen)
    ensures ListedNode(w, depth, "f", TypeReference(name, false, []), steps) == ListedDecl(w, depth - 1, d, steps)
  {
  }

  lemma PairAnswers(w: World, depth: nat, a: Node, b: Node, steps: seq<Step>, seen: Seen)
    ensures var first := LookupNode(w, depth, "f", a, steps, seen);
            var second := LookupNode(w, depth, "f", b, steps, first.1);
            LookupAll(w, depth, "f", [a, b], steps, seen) == ([first.0, second.0], second.1)
  {
    var first := LookupNode(w, depth, "f", a, steps, seen);
    var second := LookupNode(w, depth, "f", b, steps, first.1);
    assert [a, b][1..] == [b] && [b][1..] == [];
    assert [second.0] + [] == [second.0] && [first.0] + [second.0] == [first.0, second.0];
    assert LookupAll(w, depth, "f", [], steps, second.1) == ([], second.1);
    assert LookupAll(w, depth, "f", [b], steps, first.1) == ([second.0], second.1);
  }

  /** The first branch `E & G` enters D through E, unless the walk had seen E; either way it finds `x` in G. */
  lemma FirstBranch(w: World, e: DeclId, seen: Seen)
    requires w == Diamond() && e == DeclId("f", 1)
    requires seen == {} || seen == {(e, 1)}
    ensures var both := Intersection([TypeReference("E", false, []), TypeReference("G", false, [])]);
            var r := LookupNode(w, 6, "f", both, [Member("x")], seen);
            r.0 == Found && ((DeclId("f", 0), 1) in r.1 <==> seen == {})
  {
    var steps := [Member("x")];
    var d, g := DeclId("f", 0), DeclId("f", 2);
    var refE, refG := TypeReference("E", false, []), TypeReference("G", false, []);
    ReferenceAnswers(w, 5, "E", e, steps, seen);
    ReferenceAnswers(w, 3, "D", d, steps, seen + {(e, 1)});
    LeafAnswers(w, 2, d, seen + {(e, 1)});
    var first := LookupNode(w, 5, "f", refE, steps, seen);
    assert w.decls[e] == Alias([], TypeReference("D", false, []));
    if seen == {} {
      assert LookupDecl(w, 4, e, steps, seen) == LookupNode(w, 3, "f", TypeReference("D", false, []), steps, seen + {(e, 1)});
      assert first == (Found, seen + {(e, 1)} + {(d, 1)});
    } else {
      assert first == (Unknown, seen);
    }
    ReferenceAnswers(w, 5, "G", g, steps, first.1);
    LeafAnswers(w, 4, g, first.1);
    PairAnswers(w, 5, refE, refG, steps, seen);
    CombineWithFound(first.0);
  }

  lemma CombineWithFound(first: Lookup)
    requires first != Overflow
    ensures Combine([first, Found]) == Found
  {
    assert [first, Found][1] == Found;
  }

  lemma AgreeAfterFound(second: Lookup)
    requires second != Overflow && second != Missing
    ensures Agree([Found, second]) == second
  {
    var results := [Found, second];
    assert results[0] == Found && results[1] == second;
    assert Found in results && second in results;
  }

  /**
   * The answer is neither complete nor monotone in what was seen: on
   * `(E & G) | D` the path `x` is listed, a walk that starts empty answers
   * unknown because its first branch already entered D, and a walk that had
   * seen E answers found.
   */
  lemma SeenCanHelp(node: Node)
    requires node == Union([Intersection([TypeReference("E", false, []), TypeReference("G", false, [])]), TypeReference("D", false, [])])
    ensures ListedNode(Diamond(), 7, "f", node, [Member("x")])
    ensures LookupNode(Diamond(), 7, "f", node, [Member("x")], {}).0 == Unknown
    ensures LookupNode(Diamond(), 7, "f", node, [Member("x")], {(DeclId("f", 1), 1)}).0 == Found
  {
    var w, steps := Diamond(), [Member("x")];
    var d, e, g := DeclId("f", 0), DeclId("f", 1), DeclId("f", 2);
    var both, refD := node.parts[0], node.parts[1];
    SecondBranch(w, d, {}, both, refD);
    SecondBranch(w, d, {(e, 1)}, both, refD);
    BothAreListed(w, d, g, both, refD);
  }

  lemma BothAreListed(w: World, d: DeclId, g: DeclId, both: Node, refD: Node)
    requires w == Diamond() && d == DeclId("f", 0) && g == DeclId("f", 2)
    requires both == Intersection([TypeReference("E", false, []), TypeReference("G", false, [])])
    requires refD == TypeReference("D", false, [])
    ensures ListedNode(w, 7, "f", Union([both, refD]), [Member("x")])
  {
    var steps := [Member("x")];
    ReferenceAnswers(w, 5, "G", g, steps, {});
    LeafAnswers(w, 3, g, {});
    ReferenceAnswers(w, 6, "D", d, steps, {});
    LeafAnswers(w, 4, d, {});
    assert both.parts[1] in both.parts;
    assert ListedNode(w, 6, "f", both, steps);
  }

  lemma SecondBranch(w: World, d: DeclId, seen: Seen, both: Node, refD: Node)
    requires w == Diamond() && d == DeclId("f", 0) && (seen == {} || seen == {(DeclId("f", 1), 1)})
    requires both == Intersection([TypeReference("E", false, []), TypeReference("G", false, [])])
    requires refD == TypeReference("D", false, [])
    ensures LookupNode(w, 7, "f", Union([both, refD]), [Member("x")], seen).0 == if seen == {} then Unknown else Found
  {
    var steps := [Member("x")];
    FirstBranch(w, DeclId("f", 1), seen);
    var between := LookupNode(w, 6, "f", both, steps, seen).1;
    ReferenceAnswers(w, 6, "D", d, steps, between);
    LeafAnswers(w, 5, d, between);
    PairAnswers(w, 6, both, refD, steps, seen);
    AgreeAfterFound(if seen == {} then Unknown else Found);
  }
}
