/**
 * A condition on the declarations alone under which the guard of the walk in
 * scripts/gen-config-catalog.ts never fires: no declaration can be reached
 * twice with one path length.
 */
module SchemaGuard {
  import opened Prelude
  import opened SchemaPath
  import opened SchemaMeaning
  import opened SchemaSoundness
  import opened SchemaCompleteness

  // ---- The visits a path of a given length may make ----

  function VisitsDecl(w: World, n: nat, d: DeclId, l: nat): Seen
    decreases n, 0, 0
  {
    if n == 0 || l == 0 || d !in w.decls || w.decls[d].Enum? then {}
    else
      {(d, l)} + Inner(w, n - 1, d, l)
  }

  function Inner(w: World, n: nat, d: DeclId, l: nat): Seen
    requires d in w.decls && !w.decls[d].Enum?
    decreases n, 3, 0
  {
    match w.decls[d]
    case Alias(_, body) => VisitsNode(w, n, d.file, body, l)
    case Interface(_, members, bases) =>
      VisitsMembers(w, n, d.file, members, l) + VisitsBases(w, n, d.file, bases, l)
  }

  function VisitsMember(w: World, n: nat, file: string, m: TypeElement, l: nat): Seen
    decreases n, 1, 0
  {
    if l > 1 && m.Property? && m.declared.Some? then VisitsNode(w, n, file, m.declared.value, l - 1) else {}
  }

  function VisitsMembers(w: World, n: nat, file: string, members: seq<TypeElement>, l: nat): Seen
    decreases n, 2, |members|
  {
    if members == [] then {} else VisitsMember(w, n, file, members[0], l) + VisitsMembers(w, n, file, members[1..], l)
  }

  function VisitsBase(w: World, n: nat, file: string, b: Base, l: nat): Seen
    decreases n, 1, 0
  {
    if b.NamedBase? && Resolve(w, file, b.name).Some? then VisitsDecl(w, n, Resolve(w, file, b.name).value, l) else {}
  }

  function VisitsBases(w: World, n: nat, file: string, bases: seq<Base>, l: nat): Seen
    decreases n, 2, |bases|
  {
    if bases == [] then {} else VisitsBase(w, n, file, bases[0], l) + VisitsBases(w, n, file, bases[1..], l)
  }

  function VisitsAll(w: World, n: nat, file: string, nodes: seq<Node>, l: nat): Seen
    decreases n, 2, |nodes|
  {
    if nodes == [] then {} else VisitsNode(w, n, file, nodes[0], l) + VisitsAll(w, n, file, nodes[1..], l)
  }

  function VisitsNode(w: World, n: nat, file: string, node: Node, l: nat): Seen
    decreases n, 0, 0
  {
    if n == 0 || l == 0 then {}
    else
      match node
      case TypeLiteral(members) => VisitsMembers(w, n - 1, file, members, l)
      case Parenthesized(inner) => VisitsNode(w, n - 1, file, inner, l)
      case TypeOperator(_, inner) => VisitsNode(w, n - 1, file, inner, l)
      case Intersection(parts) => VisitsAll(w, n - 1, file, parts, l)
      case Union(parts) => VisitsAll(w, n - 1, file, parts, l)
      case ArrayType(element) => VisitsNode(w, n - 1, file, element, l - 1)
      case IndexedAccess(owner, index) => if index.Some? then VisitsNode(w, n - 1, file, owner, l + 1) else {}
      case TypeReference(head, qualified, args) =>
        if head in PASSTHROUGH_WRAPPERS && args != [] then VisitsNode(w, n - 1, file, args[0], l)
        else if head in ARRAYS && args != [] then VisitsNode(w, n - 1, file, args[0], l - 1)
        else if !qualified && Resolve(w, file, head).Some? then VisitsDecl(w, n - 1, Resolve(w, file, head).value, l)
        else {}
      case OtherType => {}
  }

  // ---- No visit twice ----

  /** Branches that are all taken visit different declarations, and a declaration does not lead back to itself. */
  predicate ApartDecl(w: World, n: nat, d: DeclId, l: nat)
    decreases n, 0
  {
    n > 0 && l > 0 && d in w.decls && !w.decls[d].Enum? ==>
      && (d, l) !in Inner(w, n - 1, d, l)
      && match w.decls[d]
         case Alias(_, body) => ApartNode(w, n - 1, d.file, body, l)
         case Interface(_, members, bases) =>
           ApartMembers(w, n - 1, d.file, members, l) && ApartBases(w, n - 1, d.file, bases, l)
  }

  /** Of the members only one is entered. */
  predicate ApartMembers(w: World, n: nat, file: string, members: seq<TypeElement>, l: nat)
    decreases n, |members| + 1
  {
    members != [] ==>
      && (l > 1 && members[0].Property? && members[0].declared.Some? ==> ApartNode(w, n, file, members[0].declared.value, l - 1))
      && ApartMembers(w, n, file, members[1..], l)
  }

  predicate ApartBases(w: World, n: nat, file: string, bases: seq<Base>, l: nat)
    decreases n, |bases| + 1
  {
    bases != [] ==>
      && (bases[0].NamedBase? && Resolve(w, file, bases[0].name).Some? ==>
            ApartDecl(w, n, Resolve(w, file, bases[0].name).value, l))
      && VisitsBase(w, n, file, bases[0], l) !! VisitsBases(w, n, file, bases[1..], l)
      && ApartBases(w, n, file, bases[1..], l)
  }

  predicate ApartAll(w: World, n: nat, file: string, nodes: seq<Node>, l: nat)
    decreases n, |nodes| + 1
  {
    nodes != [] ==>
      && ApartNode(w, n, file, nodes[0], l)
      && VisitsNode(w, n, file, nodes[0], l) !! VisitsAll(w, n, file, nodes[1..], l)
      && ApartAll(w, n, file, nodes[1..], l)
  }

  predicate ApartNode(w: World, n: nat, file: string, node: Node, l: nat)
    decreases n, 0
  {
    n > 0 && l > 0 ==>
      match node
      case TypeLiteral(members) => ApartMembers(w, n - 1, file, members, l)
      case Parenthesized(inner) => ApartNode(w, n - 1, file, inner, l)
      case TypeOperator(_, inner) => ApartNode(w, n - 1, file, inner, l)
      case Intersection(parts) => ApartAll(w, n - 1, file, parts, l)
      case Union(parts) => ApartAll(w, n - 1, file, parts, l)
      case ArrayType(element) => ApartNode(w, n - 1, file, element, l - 1)
      case IndexedAccess(owner, index) => index.Some? ==> ApartNode(w, n - 1, file, owner, l + 1)
      case TypeReference(head, qualified, args) =>
        if head in PASSTHROUGH_WRAPPERS && args != [] then ApartNode(w, n - 1, file, args[0], l)
        else if head in ARRAYS && args != [] then ApartNode(w, n - 1, file, args[0], l - 1)
        else !qualified && Resolve(w, file, head).Some? ==> ApartDecl(w, n - 1, Resolve(w, file, head).value, l)
      case OtherType => true
  }

  // ---- Then the guard never fires ----

  lemma {:induction false} PickedVisits(w: World, n: nat, file: string, members: seq<TypeElement>, p: TypeElement, l: nat)
    requires p in members
    ensures VisitsMember(w, n, file, p, l) <= VisitsMembers(w, n, file, members, l)
    ensures ApartMembers(w, n, file, members, l) && l > 1 && p.Property? && p.declared.Some? ==>
              ApartNode(w, n, file, p.declared.value, l - 1)
    decreases |members|
  {
    if p != members[0] { PickedVisits(w, n, file, members[1..], p, l); }
  }

  lemma {:induction false} GuardDecl(w: World, n: nat, d: DeclId, steps: seq<Step>, seen: Seen)
    requires ApartDecl(w, n, d, |steps|) && VisitsDecl(w, n, d, |steps|) !! seen
    ensures ClearDecl(w, n, d, steps, seen)
    ensures LookupDecl(w, n, d, steps, seen).1 <= seen + VisitsDecl(w, n, d, |steps|)
    decreases n, 0
  {
    if n > 0 && steps != [] && d in w.decls && !w.decls[d].Enum? {
      var l := |steps|;
      var visited := seen + {(d, l)};
      assert (d, l) in VisitsDecl(w, n, d, l) && Inner(w, n - 1, d, l) !! visited;
      match w.decls[d]
      case Alias(_, body) => GuardNode(w, n - 1, d.file, body, steps, visited);
      case Interface(_, members, bases) =>
        if steps[0].Member? {
          var p := PropertyNamed(members, steps[0].name);
          if p.Some? {
            PickedVisits(w, n - 1, d.file, members, p.value, l);
            GuardProperty(w, n - 1, d.file, p.value, steps, visited);
          } else {
            GuardBases(w, n - 1, d.file, bases, steps, visited);
          }
        }
    }
  }

  lemma {:induction false} GuardProperty(w: World, n: nat, file: string, p: TypeElement, steps: seq<Step>, seen: Seen)
    requires steps != [] && VisitsMember(w, n, file, p, |steps|) !! seen
    requires |steps| > 1 && p.Property? && p.declared.Some? ==> ApartNode(w, n, file, p.declared.value, |steps| - 1)
    ensures ClearProperty(w, n, file, p, steps, seen)
    ensures LookupProperty(w, n, file, p, steps, seen).1 <= seen + VisitsMember(w, n, file, p, |steps|)
    decreases n, 1
  {
    if |steps| > 1 && p.Property? && p.declared.Some? {
      GuardNode(w, n, file, p.declared.value, steps[1..], seen);
    }
  }

  lemma {:induction false} GuardBases(w: World, n: nat, file: string, bases: seq<Base>, steps: seq<Step>, seen: Seen)
    requires ApartBases(w, n, file, bases, |steps|) && VisitsBases(w, n, file, bases, |steps|) !! seen
    ensures ClearBases(w, n, file, bases, steps, seen)
    ensures LookupBases(w, n, file, bases, steps, seen).1 <= seen + VisitsBases(w, n, file, bases, |steps|)
    decreases n, |bases| + 1
  {
    if bases != [] {
      var target := if bases[0].NamedBase? then Resolve(w, file, bases[0].name) else None;
      if target.Some? { GuardDecl(w, n, target.value, steps, seen); }
      var between := if target.None? then seen else LookupDecl(w, n, target.value, steps, seen).1;
      assert between <= seen + VisitsBase(w, n, file, bases[0], |steps|);
      GuardBases(w, n, file, bases[1..], steps, between);
    }
  }

  lemma {:induction false} GuardAll(w: World, n: nat, file: string, nodes: seq<Node>, steps: seq<Step>, seen: Seen)
    requires ApartAll(w, n, file, nodes, |steps|) && VisitsAll(w, n, file, nodes, |steps|) !! seen
    ensures ClearAll(w, n, file, nodes, steps, seen)
    ensures LookupAll(w, n, file, nodes, steps, seen).1 <= seen + VisitsAll(w, n, file, nodes, |steps|)
    decreases n, |nodes| + 1
  {
    if nodes != [] {
      GuardNode(w, n, file, nodes[0], steps, seen);
      GuardAll(w, n, file, nodes[1..], steps, LookupNode(w, n, file, nodes[0], steps, seen).1);
    }
  }

  lemma {:induction false} GuardNode(w: World, n: nat, file: string, node: Node, steps: seq<Step>, seen: Seen)
    requires ApartNode(w, n, file, node, |steps|) && VisitsNode(w, n, file, node, |steps|) !! seen
    ensures ClearNode(w, n, file, node, steps, seen)
    ensures LookupNode(w, n, file, node, steps, seen).1 <= seen + VisitsNode(w, n, file, node, |steps|)
    decreases n, 0
  {
    if n > 0 && steps != [] {
      match node
      case TypeLiteral(members) =>
        if steps[0].Member? && PropertyNamed(members, steps[0].name).Some? {
          var p := PropertyNamed(members, steps[0].name).value;
          PickedVisits(w, n - 1, file, members, p, |steps|);
          GuardProperty(w, n - 1, file, p, steps, seen);
        }
      case Parenthesized(inner) => GuardNode(w, n - 1, file, inner, steps, seen);
      case TypeOperator(_, inner) => GuardNode(w, n - 1, file, inner, steps, seen);
      case Intersection(parts) => GuardAll(w, n - 1, file, parts, steps, seen);
      case Union(parts) => GuardAll(w, n - 1, file, parts, steps, seen);
      case ArrayType(element) =>
        if steps[0].Element? { GuardNode(w, n - 1, file, element, steps[1..], seen); }
      case IndexedAccess(owner, index) =>
        if index.Some? { GuardNode(w, n - 1, file, owner, [Member(index.value)] + steps, seen); }
      case TypeReference(_, _, _) => GuardReference(w, n, file, node, steps, seen);
      case OtherType =>
    }
  }

  lemma {:induction false} GuardReference(w: World, n: nat, file: string, node: Node, steps: seq<Step>, seen: Seen)
    requires node.TypeReference? && n > 0 && steps != []
    requires ApartNode(w, n, file, node, |steps|) && VisitsNode(w, n, file, node, |steps|) !! seen
    ensures ClearNode(w, n, file, node, steps, seen)
    ensures LookupNode(w, n, file, node, steps, seen).1 <= seen + VisitsNode(w, n, file, node, |steps|)
    decreases n - 1, |steps| + 2
  {
    if node.head in PASSTHROUGH_WRAPPERS && node.args != [] {
      GuardNode(w, n - 1, file, node.args[0], steps, seen);
    } else if node.head in ARRAYS && node.args != [] {
      if steps[0].Element? { GuardNode(w, n - 1, file, node.args[0], steps[1..], seen); }
    } else if !node.qualified && Resolve(w, file, node.head).Some? {
      GuardDecl(w, n - 1, Resolve(w, file, node.head).value, steps, seen);
    }
  }

  /**
   * Where no declaration can be reached twice with one path length, the walk of
   * a schema key loses no answer: on any path of that length it finds exactly
   * what the written properties list and misses exactly what they do not.
   */
  lemma ApartIsAnswered(w: World, d: DeclId, steps: seq<Step>, depth: nat)
    requires ApartDecl(w, depth, d, |steps|) && LookupDecl(w, depth, d, steps, {}).0 != Overflow
    ensures LookupDecl(w, depth, d, steps, {}).0 == Found <==> Listed(w, d, steps)
    ensures LookupDecl(w, depth, d, steps, {}).0 == Missing <==> Unlisted(w, d, steps)
    ensures PlainWorld(w) && WithoutParams(w) ==>
              && (LookupDecl(w, depth, d, steps, {}).0 == Found <==> Present(w, d, steps))
              && (LookupDecl(w, depth, d, steps, {}).0 == Missing <==> Absent(w, d, steps))
  {
    GuardDecl(w, depth, d, steps, {});
    TextIsAnswered(w, d, steps, depth, {});
    if PlainWorld(w) && WithoutParams(w) { AnswersAreComplete(w, d, steps, depth, {}); }
  }
}
