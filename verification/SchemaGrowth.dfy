/**
 * Which reference cycles make the schema-path walk of
 * scripts/gen-config-catalog.ts overflow: those that lengthen the path.
 */
module SchemaGrowth {
  import opened Prelude
  import opened SchemaPath
  import opened SchemaTermination

  // ---- References, with the indexed accesses on the way ----

  /** The walk may follow this node to the target through j indexed accesses. */
  ghost predicate Refers(w: World, file: string, node: Node, target: DeclId, j: nat) {
    match node
    case TypeLiteral(members) => exists e | e in members :: RefersElement(w, file, e, target, j)
    case Parenthesized(inner) => Refers(w, file, inner, target, j)
    case TypeOperator(_, inner) => Refers(w, file, inner, target, j)
    case Intersection(parts) => exists part | part in parts :: Refers(w, file, part, target, j)
    case Union(parts) => exists part | part in parts :: Refers(w, file, part, target, j)
    case ArrayType(element) => Refers(w, file, element, target, j)
    case IndexedAccess(owner, index) => index.Some? && j >= 1 && Refers(w, file, owner, target, j - 1)
    case TypeReference(head, qualified, args) =>
      if (head in PASSTHROUGH_WRAPPERS || head in ARRAYS) && args != [] then Refers(w, file, args[0], target, j)
      else !qualified && Resolve(w, file, head) == Some(target) && j == 0
    case OtherType => false
  }

  ghost predicate RefersElement(w: World, file: string, e: TypeElement, target: DeclId, j: nat) {
    e.Property? && e.declared.Some? && Refers(w, file, e.declared.value, target, j)
  }

  ghost predicate Link(w: World, d: DeclId, target: DeclId, j: nat) {
    d in w.decls &&
    match w.decls[d]
    case Alias(_, body) => Refers(w, d.file, body, target, j)
    case Interface(_, members, bases) =>
      || (exists e | e in members :: RefersElement(w, d.file, e, target, j))
      || (j == 0 && exists b | b in bases :: b.NamedBase? && Resolve(w, d.file, b.name) == Some(target))
    case Enum => false
  }

  ghost predicate Linked(w: World, d: DeclId, target: DeclId) {
    exists j: nat :: Link(w, d, target, j)
  }

  ghost predicate IsTrail(w: World, p: seq<DeclId>) {
    p != [] && forall i | 0 < i < |p| :: Linked(w, p[i - 1], p[i])
  }

  ghost predicate Reaches(w: World, a: DeclId, b: DeclId) {
    exists p :: IsTrail(w, p) && p[0] == a && p[|p| - 1] == b
  }

  /** No cycle of references goes through an indexed access. */
  ghost predicate NoGrowingCycle(w: World) {
    forall a, b, j: nat {:trigger Link(w, a, b, j)} | Link(w, a, b, j) && j >= 1 :: !Reaches(w, b, a)
  }

  lemma ReachesSelf(w: World, a: DeclId)
    ensures Reaches(w, a, a)
  {
    assert IsTrail(w, [a]);
  }

  lemma ReachesThrough(w: World, a: DeclId, b: DeclId, c: DeclId)
    requires Linked(w, a, b) && Reaches(w, b, c)
    ensures Reaches(w, a, c)
  {
    var p :| IsTrail(w, p) && p[0] == b && p[|p| - 1] == c;
    var q := [a] + p;
    forall i | 0 < i < |q| ensures Linked(w, q[i - 1], q[i]) {
      assert i > 1 ==> Linked(w, p[i - 2], p[i - 1]);
    }
    assert IsTrail(w, q);
  }

  // ---- Without a growing cycle there is a budget ----

  /** The indexed accesses a walk can meet inside one node. */
  function Pushes(node: Node): nat {
    match node
    case TypeLiteral(members) => ElementsPushes(members)
    case Parenthesized(inner) => Pushes(inner)
    case TypeOperator(_, inner) => Pushes(inner)
    case Intersection(parts) => NodesPushes(parts)
    case Union(parts) => NodesPushes(parts)
    case ArrayType(element) => Pushes(element)
    case IndexedAccess(owner, _) => 1 + Pushes(owner)
    case TypeReference(_, _, args) => NodesPushes(args)
    case OtherType => 0
  }

  function ElementPushes(e: TypeElement): nat {
    if e.Property? && e.declared.Some? then Pushes(e.declared.value) else 0
  }

  function ElementsPushes(members: seq<TypeElement>): nat {
    if members == [] then 0 else Max(ElementPushes(members[0]), ElementsPushes(members[1..]))
  }

  function NodesPushes(nodes: seq<Node>): nat {
    if nodes == [] then 0 else Max(Pushes(nodes[0]), NodesPushes(nodes[1..]))
  }

  function DeclPushes(decl: Decl): nat {
    match decl
    case Alias(_, body) => Pushes(body)
    case Interface(_, members, _) => ElementsPushes(members)
    case Enum => 0
  }

  lemma {:induction false} ElementsPushesBound(members: seq<TypeElement>, e: TypeElement)
    requires e in members
    ensures ElementPushes(e) <= ElementsPushes(members)
  {
    if e != members[0] { ElementsPushesBound(members[1..], e); }
  }

  lemma {:induction false} NodesPushesBound(nodes: seq<Node>, node: Node)
    requires node in nodes
    ensures Pushes(node) <= NodesPushes(nodes)
  {
    if node != nodes[0] { NodesPushesBound(nodes[1..], node); }
  }

  lemma {:induction false} PushesAreBounded(decls: map<DeclId, Decl>) returns (j: nat)
    ensures j >= 1 && forall d | d in decls :: DeclPushes(decls[d]) <= j
    decreases |decls|
  {
    if decls == map[] {
      j := 1;
    } else {
      var d :| d in decls;
      var rest := decls - {d};
      assert decls.Keys == rest.Keys + {d};
      assert |decls.Keys| == |decls| && |rest.Keys| == |rest|;
      var others := PushesAreBounded(rest);
      j := Max(others, DeclPushes(decls[d]));
      forall x | x in decls ensures DeclPushes(decls[x]) <= j {
        if x != d { assert x in rest && rest[x] == decls[x]; }
      }
    }
  }

  /** Every target the walk may be led to from a node is paid for, pushes included. */
  ghost predicate Pays(w: World, budget: Budget, file: string, node: Node, b: nat) {
    forall target, j: nat {:trigger Refers(w, file, node, target, j)} |
      Refers(w, file, node, target, j) :: Owed(budget, target) + j <= b
  }

  lemma {:induction false} PaysAffords(w: World, budget: Budget, file: string, node: Node, b: nat)
    requires Pushes(node) <= b && Pays(w, budget, file, node, b)
    ensures Affords(w, budget, file, node, b)
    decreases node
  {
    match node
    case TypeLiteral(members) =>
      forall e | e in members ensures AffordsElement(w, budget, file, e, b) {
        ElementsPushesBound(members, e);
        ElementPays(w, budget, file, members, e, b);
        if e.Property? && e.declared.Some? { PaysAffords(w, budget, file, e.declared.value, b + 1); }
      }
    case Parenthesized(inner) =>
      forall target, j: nat | Refers(w, file, inner, target, j) ensures Owed(budget, target) + j <= b {
        assert Refers(w, file, node, target, j);
      }
      PaysAffords(w, budget, file, inner, b);
    case TypeOperator(_, inner) =>
      forall target, j: nat | Refers(w, file, inner, target, j) ensures Owed(budget, target) + j <= b {
        assert Refers(w, file, node, target, j);
      }
      PaysAffords(w, budget, file, inner, b);
    case Intersection(parts) => PaysAffordsAll(w, budget, file, node, parts, b);
    case Union(parts) => PaysAffordsAll(w, budget, file, node, parts, b);
    case ArrayType(element) =>
      forall target, j: nat | Refers(w, file, element, target, j) ensures Owed(budget, target) + j <= b + 1 {
        assert Refers(w, file, node, target, j);
      }
      PaysAffords(w, budget, file, element, b + 1);
    case IndexedAccess(owner, index) =>
      if index.Some? {
        forall target, j: nat | Refers(w, file, owner, target, j) ensures Owed(budget, target) + j <= b - 1 {
          assert Refers(w, file, node, target, j + 1);
        }
        PaysAffords(w, budget, file, owner, b - 1);
      }
    case TypeReference(head, qualified, args) => PaysAffordsReference(w, budget, file, node, b);
    case OtherType =>
  }

  lemma ElementPays(w: World, budget: Budget, file: string, members: seq<TypeElement>, e: TypeElement, b: nat)
    requires Pays(w, budget, file, TypeLiteral(members), b) && e in members
    ensures e.Property? && e.declared.Some? ==> Pays(w, budget, file, e.declared.value, b + 1)
  {
    if e.Property? && e.declared.Some? {
      forall target, j: nat | Refers(w, file, e.declared.value, target, j) ensures Owed(budget, target) + j <= b + 1 {
        assert RefersElement(w, file, e, target, j);
        assert Refers(w, file, TypeLiteral(members), target, j);
      }
    }
  }

  lemma {:induction false} PaysAffordsAll(w: World, budget: Budget, file: string, node: Node, parts: seq<Node>, b: nat)
    requires node == Intersection(parts) || node == Union(parts)
    requires Pushes(node) <= b && Pays(w, budget, file, node, b)
    ensures Affords(w, budget, file, node, b)
    decreases node, 0
  {
    forall part | part in parts ensures Affords(w, budget, file, part, b) {
      NodesPushesBound(parts, part);
      forall target, j: nat | Refers(w, file, part, target, j) ensures Owed(budget, target) + j <= b {
        assert Refers(w, file, node, target, j);
      }
      PaysAffords(w, budget, file, part, b);
    }
  }

  lemma {:induction false} PaysAffordsReference(w: World, budget: Budget, file: string, node: Node, b: nat)
    requires node.TypeReference? && Pushes(node) <= b && Pays(w, budget, file, node, b)
    ensures Affords(w, budget, file, node, b)
    decreases node, 0
  {
    if (node.head in PASSTHROUGH_WRAPPERS || node.head in ARRAYS) && node.args != [] {
      var arg := node.args[0];
      NodesPushesBound(node.args, arg);
      forall target, j: nat | Refers(w, file, arg, target, j) ensures Owed(budget, target) + j <= b {
        assert Refers(w, file, node, target, j);
      }
      PaysAffords(w, budget, file, arg, if node.head in PASSTHROUGH_WRAPPERS then b else b + 1);
    } else if !node.qualified && Resolve(w, file, node.head).Some? {
      assert Refers(w, file, node, Resolve(w, file, node.head).value, 0);
    }
  }

  /** The declarations reachable from one. */
  ghost function Reach(w: World, d: DeclId): set<DeclId> {
    set x | x in w.decls.Keys && Reaches(w, d, x)
  }

  lemma LinkShrinksReach(w: World, d: DeclId, target: DeclId, j: nat)
    requires NoGrowingCycle(w) && Link(w, d, target, j) && d in w.decls
    ensures |Reach(w, target)| <= |Reach(w, d)|
    ensures j >= 1 ==> |Reach(w, target)| + 1 <= |Reach(w, d)|
  {
    assert Linked(w, d, target);
    forall x | x in Reach(w, target) ensures x in Reach(w, d) {
      ReachesThrough(w, d, target, x);
    }
    SubsetSize(Reach(w, target), Reach(w, d));
    ReachesSelf(w, d);
    if j >= 1 {
      assert d in Reach(w, d) && d !in Reach(w, target);
    }
  }

  /** A declaration's budget: enough pushes for every declaration it can reach. */
  ghost function ReachBudget(w: World, most: nat): Budget {
    map d | d in w.decls :: most * |Reach(w, d)|
  }

  lemma LinkIsPaid(w: World, most: nat, d: DeclId, target: DeclId, j: nat)
    requires NoGrowingCycle(w) && Link(w, d, target, j) && j <= most
    ensures Owed(ReachBudget(w, most), target) + j <= Owed(ReachBudget(w, most), d)
  {
    LinkShrinksReach(w, d, target, j);
    var a, b := |Reach(w, target)|, |Reach(w, d)|;
    if j >= 1 {
      MulMonotone(a + 1, b, most);
      assert (a + 1) * most == a * most + most;
    } else {
      MulMonotone(a, b, most);
    }
    assert most * a == a * most && most * b == b * most;
  }

  lemma OwnPushesArePaid(w: World, most: nat, d: DeclId)
    requires d in w.decls
    ensures most <= Owed(ReachBudget(w, most), d)
  {
    ReachesSelf(w, d);
    assert d in Reach(w, d);
    SubsetSize({d}, Reach(w, d));
    MulMonotone(1, |Reach(w, d)|, most);
    assert most * |Reach(w, d)| == |Reach(w, d)| * most;
  }

  /** A node's pushes bound those of its references. */
  lemma {:induction false} RefersWithin(w: World, file: string, node: Node, target: DeclId, j: nat)
    requires Refers(w, file, node, target, j)
    ensures j <= Pushes(node)
  {
    match node
    case TypeLiteral(members) =>
      var e :| e in members && RefersElement(w, file, e, target, j);
      ElementsPushesBound(members, e);
      RefersWithin(w, file, e.declared.value, target, j);
    case Parenthesized(inner) => RefersWithin(w, file, inner, target, j);
    case TypeOperator(_, inner) => RefersWithin(w, file, inner, target, j);
    case Intersection(parts) =>
      var part :| part in parts && Refers(w, file, part, target, j);
      NodesPushesBound(parts, part);
      RefersWithin(w, file, part, target, j);
    case Union(parts) =>
      var part :| part in parts && Refers(w, file, part, target, j);
      NodesPushesBound(parts, part);
      RefersWithin(w, file, part, target, j);
    case ArrayType(element) => RefersWithin(w, file, element, target, j);
    case IndexedAccess(owner, _) => RefersWithin(w, file, owner, target, j - 1);
    case TypeReference(head, qualified, args) =>
      if (head in PASSTHROUGH_WRAPPERS || head in ARRAYS) && args != [] {
        NodesPushesBound(args, args[0]);
        RefersWithin(w, file, args[0], target, j);
      }
    case OtherType =>
  }

  lemma NodeIsPaid(w: World, most: nat, d: DeclId, node: Node, b: nat)
    requires NoGrowingCycle(w) && d in w.decls && Pushes(node) <= most && b >= Owed(ReachBudget(w, most), d)
    requires forall target, j: nat {:trigger Refers(w, d.file, node, target, j)} | Refers(w, d.file, node, target, j) :: Link(w, d, target, j)
    ensures Affords(w, ReachBudget(w, most), d.file, node, b)
  {
    OwnPushesArePaid(w, most, d);
    forall target, j: nat | Refers(w, d.file, node, target, j) ensures Owed(ReachBudget(w, most), target) + j <= b {
      RefersWithin(w, d.file, node, target, j);
      LinkIsPaid(w, most, d, target, j);
    }
    PaysAffords(w, ReachBudget(w, most), d.file, node, b);
  }

  lemma DeclIsPaid(w: World, most: nat, d: DeclId)
    requires NoGrowingCycle(w) && d in w.decls && DeclPushes(w.decls[d]) <= most
    ensures AffordsDecl(w, ReachBudget(w, most), d)
  {
    var budget := ReachBudget(w, most);
    match w.decls[d]
    case Alias(_, body) => NodeIsPaid(w, most, d, body, Owed(budget, d));
    case Interface(_, members, bases) =>
      forall e | e in members ensures AffordsElement(w, budget, d.file, e, Owed(budget, d)) {
        if e.Property? && e.declared.Some? {
          ElementsPushesBound(members, e);
          forall target, j: nat | Refers(w, d.file, e.declared.value, target, j) ensures Link(w, d, target, j) {
            assert RefersElement(w, d.file, e, target, j);
          }
          NodeIsPaid(w, most, d, e.declared.value, Owed(budget, d) + 1);
        }
      }
      forall base | base in bases ensures AffordsBase(w, budget, d.file, base, Owed(budget, d)) {
        if base.NamedBase? && Resolve(w, d.file, base.name).Some? {
          assert Link(w, d, Resolve(w, d.file, base.name).value, 0);
          LinkIsPaid(w, most, d, Resolve(w, d.file, base.name).value, 0);
        }
      }
    case Enum =>
  }

  /**
   * If no cycle of references goes through an indexed access, the walk returns
   * on every query, mutually recursive and self-extending types included.
   */
  lemma WalkTerminates(w: World, d: DeclId, steps: seq<Step>, seen: Seen) returns (bound: nat)
    requires NoGrowingCycle(w)
    ensures LookupDecl(w, bound, d, steps, seen).0 != Overflow
    ensures forall depth: nat | depth >= bound :: LookupDecl(w, depth, d, steps, seen) == LookupDecl(w, bound, d, steps, seen)
  {
    var most := PushesAreBounded(w.decls);
    forall x | x in w.decls ensures AffordsDecl(w, ReachBudget(w, most), x) {
      DeclIsPaid(w, most, x);
    }
    bound := WalkReturns(w, ReachBudget(w, most), d, steps, seen);
  }
}
