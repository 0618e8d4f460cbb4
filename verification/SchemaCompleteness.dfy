/**
 * What the guard of the walk in scripts/gen-config-catalog.ts costs: a walk
 * that never meets a declaration a second time gives every definite answer
 * there is to give.
 */
module SchemaCompleteness {
  import opened Prelude
  import opened SchemaPath
  import opened SchemaMeaning
  import opened SchemaSoundness

  // ---- The guard never fires ----

  ghost predicate ClearDecl(w: World, depth: nat, d: DeclId, steps: seq<Step>, seen: Seen)
    decreases depth, 0
  {
    depth > 0 && steps != [] && d in w.decls && !w.decls[d].Enum? ==>
      && (d, |steps|) !in seen
      && var visited := seen + {(d, |steps|)};
         match w.decls[d]
         case Alias(_, body) => ClearNode(w, depth - 1, d.file, body, steps, visited)
         case Interface(_, members, bases) =>
           steps[0].Member? ==>
             (var p := PropertyNamed(members, steps[0].name);
              if p.Some? then ClearProperty(w, depth - 1, d.file, p.value, steps, visited)
              else ClearBases(w, depth - 1, d.file, bases, steps, visited))
         case Enum => true
  }

  ghost predicate ClearProperty(w: World, depth: nat, file: string, p: TypeElement, steps: seq<Step>, seen: Seen)
    requires steps != []
    decreases depth, 1
  {
    |steps| > 1 && p.Property? && p.declared.Some? ==> ClearNode(w, depth, file, p.declared.value, steps[1..], seen)
  }

  ghost predicate ClearBases(w: World, depth: nat, file: string, bases: seq<Base>, steps: seq<Step>, seen: Seen)
    decreases depth, |bases| + 1
  {
    bases != [] ==>
      (var target := if bases[0].NamedBase? then Resolve(w, file, bases[0].name) else None;
       if target.None? then ClearBases(w, depth, file, bases[1..], steps, seen)
       else ClearDecl(w, depth, target.value, steps, seen)
            && ClearBases(w, depth, file, bases[1..], steps, LookupDecl(w, depth, target.value, steps, seen).1))
  }

  ghost predicate ClearAll(w: World, depth: nat, file: string, nodes: seq<Node>, steps: seq<Step>, seen: Seen)
    decreases depth, |nodes| + 1
  {
    nodes != [] ==>
      && ClearNode(w, depth, file, nodes[0], steps, seen)
      && ClearAll(w, depth, file, nodes[1..], steps, LookupNode(w, depth, file, nodes[0], steps, seen).1)
  }

  ghost predicate ClearNode(w: World, depth: nat, file: string, node: Node, steps: seq<Step>, seen: Seen)
    decreases depth, 0
  {
    depth > 0 && steps != [] ==>
      match node
      case TypeLiteral(members) =>
        steps[0].Member? && PropertyNamed(members, steps[0].name).Some? ==>
          ClearProperty(w, depth - 1, file, PropertyNamed(members, steps[0].name).value, steps, seen)
      case Parenthesized(inner) => ClearNode(w, depth - 1, file, inner, steps, seen)
      case TypeOperator(_, inner) => ClearNode(w, depth - 1, file, inner, steps, seen)
      case Intersection(parts) => ClearAll(w, depth - 1, file, parts, steps, seen)
      case Union(parts) => ClearAll(w, depth - 1, file, parts, steps, seen)
      case ArrayType(element) => steps[0].Element? ==> ClearNode(w, depth - 1, file, element, steps[1..], seen)
      case IndexedAccess(owner, index) =>
        index.Some? ==> ClearNode(w, depth - 1, file, owner, [Member(index.value)] + steps, seen)
      case TypeReference(head, qualified, args) =>
        if head in PASSTHROUGH_WRAPPERS && args != [] then ClearNode(w, depth - 1, file, args[0], steps, seen)
        else if head in ARRAYS && args != [] then
          steps[0].Element? ==> ClearNode(w, depth - 1, file, args[0], steps[1..], seen)
        else !qualified && Resolve(w, file, head).Some? ==>
               ClearDecl(w, depth - 1, Resolve(w, file, head).value, steps, seen)
      case OtherType => true
  }

  // ---- Then every derivation is found ----

  lemma {:induction false} CompleteDecl(w: World, depth: nat, n: nat, d: DeclId, steps: seq<Step>, seen: Seen)
    requires ClearDecl(w, depth, d, steps, seen) && LookupDecl(w, depth, d, steps, seen).0 != Overflow
    ensures ListedDecl(w, n, d, steps) ==> LookupDecl(w, depth, d, steps, seen).0 == Found
    ensures UnlistedDecl(w, n, d, steps) ==> LookupDecl(w, depth, d, steps, seen).0 == Missing
    decreases depth, 0
  {
    if n > 0 && steps != [] && d in w.decls {
      var visited := seen + {(d, |steps|)};
      match w.decls[d]
      case Alias(_, body) => CompleteNode(w, depth - 1, n - 1, d.file, body, steps, visited);
      case Interface(_, members, bases) =>
        if steps[0].Member? {
          var p := PropertyNamed(members, steps[0].name);
          if p.Some? {
            CompleteProperty(w, depth - 1, n - 1, d.file, p.value, steps, visited);
          } else {
            CompleteHeritage(w, depth - 1, n - 1, d.file, bases, steps, visited);
          }
        }
      case Enum =>
    }
  }

  lemma {:induction false} CompleteProperty(
    w: World, depth: nat, n: nat, file: string, p: TypeElement, steps: seq<Step>, seen: Seen)
    requires steps != [] && ClearProperty(w, depth, file, p, steps, seen)
    requires LookupProperty(w, depth, file, p, steps, seen).0 != Overflow
    ensures ListedProperty(w, n, file, p, steps) ==> LookupProperty(w, depth, file, p, steps, seen).0 == Found
    ensures UnlistedProperty(w, n, file, p, steps) ==> LookupProperty(w, depth, file, p, steps, seen).0 == Missing
    decreases depth, 1
  {
    if |steps| > 1 && p.Property? && p.declared.Some? {
      CompleteNode(w, depth, n, file, p.declared.value, steps[1..], seen);
    }
  }

  lemma {:induction false} CompleteBases(
    w: World, depth: nat, n: nat, file: string, bases: seq<Base>, steps: seq<Step>, seen: Seen)
    requires ClearBases(w, depth, file, bases, steps, seen) && Overflow !in LookupBases(w, depth, file, bases, steps, seen).0
    ensures var results := LookupBases(w, depth, file, bases, steps, seen).0;
            forall i | 0 <= i < |bases| ::
              && (ListedBase(w, n, file, bases[i], steps) ==> results[i] == Found)
              && (UnlistedBase(w, n, file, bases[i], steps) ==> results[i] == Missing)
    decreases depth, |bases| + 1
  {
    if bases != [] {
      var results := LookupBases(w, depth, file, bases, steps, seen).0;
      assert results[0] != Overflow;
      var target := if bases[0].NamedBase? then Resolve(w, file, bases[0].name) else None;
      if target.Some? { CompleteDecl(w, depth, n, target.value, steps, seen); }
      var between := if target.None? then seen else LookupDecl(w, depth, target.value, steps, seen).1;
      assert LookupBases(w, depth, file, bases[1..], steps, between).0 == results[1..];
      CompleteBases(w, depth, n, file, bases[1..], steps, between);
    }
  }

  lemma {:induction false} CompleteHeritage(
    w: World, depth: nat, n: nat, file: string, bases: seq<Base>, steps: seq<Step>, seen: Seen)
    requires ClearBases(w, depth, file, bases, steps, seen)
    requires Combine(LookupBases(w, depth, file, bases, steps, seen).0) != Overflow
    ensures var results := LookupBases(w, depth, file, bases, steps, seen).0;
            && ((exists b | b in bases :: ListedBase(w, n, file, b, steps)) ==> Combine(results) == Found)
            && ((forall b | b in bases :: UnlistedBase(w, n, file, b, steps)) ==> Combine(results) == Missing)
    decreases depth, |bases| + 2
  {
    CompleteBases(w, depth, n, file, bases, steps, seen);
    CombineIsComplete(w, n, file, bases, steps, LookupBases(w, depth, file, bases, steps, seen).0);
  }

  lemma CombineIsComplete(w: World, n: nat, file: string, bases: seq<Base>, steps: seq<Step>, results: seq<Lookup>)
    requires |results| == |bases| && Overflow !in results
    requires forall i | 0 <= i < |bases| ::
               && (ListedBase(w, n, file, bases[i], steps) ==> results[i] == Found)
               && (UnlistedBase(w, n, file, bases[i], steps) ==> results[i] == Missing)
    ensures (exists b | b in bases :: ListedBase(w, n, file, b, steps)) ==> Combine(results) == Found
    ensures (forall b | b in bases :: UnlistedBase(w, n, file, b, steps)) ==> Combine(results) == Missing
  {
    if b :| b in bases && ListedBase(w, n, file, b, steps) {
      var i :| 0 <= i < |bases| && bases[i] == b;
      assert results[i] in results;
    }
    if forall b | b in bases :: UnlistedBase(w, n, file, b, steps) {
      forall r | r in results ensures r == Missing {
        var i :| 0 <= i < |results| && results[i] == r;
        assert bases[i] in bases;
      }
    }
  }

  lemma {:induction false} CompleteAll(
    w: World, depth: nat, n: nat, file: string, nodes: seq<Node>, steps: seq<Step>, seen: Seen)
    requires ClearAll(w, depth, file, nodes, steps, seen) && Overflow !in LookupAll(w, depth, file, nodes, steps, seen).0
    ensures var results := LookupAll(w, depth, file, nodes, steps, seen).0;
            forall i | 0 <= i < |nodes| ::
              && (ListedNode(w, n, file, nodes[i], steps) ==> results[i] == Found)
              && (UnlistedNode(w, n, file, nodes[i], steps) ==> results[i] == Missing)
    decreases depth, |nodes| + 1
  {
    if nodes != [] {
      var results := LookupAll(w, depth, file, nodes, steps, seen).0;
      assert results[0] != Overflow;
      CompleteNode(w, depth, n, file, nodes[0], steps, seen);
      var between := LookupNode(w, depth, file, nodes[0], steps, seen).1;
      assert LookupAll(w, depth, file, nodes[1..], steps, between).0 == results[1..];
      CompleteAll(w, depth, n, file, nodes[1..], steps, between);
    }
  }

  lemma PartsAreComplete(w: World, n: nat, file: string, parts: seq<Node>, steps: seq<Step>, results: seq<Lookup>)
    requires |results| == |parts| && Overflow !in results
    requires forall i | 0 <= i < |parts| ::
               && (ListedNode(w, n, file, parts[i], steps) ==> results[i] == Found)
               && (UnlistedNode(w, n, file, parts[i], steps) ==> results[i] == Missing)
    ensures (exists part | part in parts :: ListedNode(w, n, file, part, steps)) ==> Combine(results) == Found
    ensures (forall part | part in parts :: ListedNode(w, n, file, part, steps)) ==> Agree(results) == Found
    ensures (forall part | part in parts :: UnlistedNode(w, n, file, part, steps)) ==>
              Combine(results) == Missing && (parts != [] ==> Agree(results) == Missing)
  {
    if part :| part in parts && ListedNode(w, n, file, part, steps) {
      var i :| 0 <= i < |parts| && parts[i] == part;
      assert results[i] in results;
    }
    forall r | r in results ensures exists i :: 0 <= i < |parts| && results[i] == r && parts[i] in parts {
      var i :| 0 <= i < |results| && results[i] == r;
      assert parts[i] in parts;
    }
    assert parts != [] ==> results[0] in results;
  }

  lemma {:induction false} CompleteNode(
    w: World, depth: nat, n: nat, file: string, node: Node, steps: seq<Step>, seen: Seen)
    requires ClearNode(w, depth, file, node, steps, seen) && LookupNode(w, depth, file, node, steps, seen).0 != Overflow
    ensures ListedNode(w, n, file, node, steps) ==> LookupNode(w, depth, file, node, steps, seen).0 == Found
    ensures UnlistedNode(w, n, file, node, steps) ==> LookupNode(w, depth, file, node, steps, seen).0 == Missing
    decreases depth, 0
  {
    if n > 0 && steps != [] {
      match node
      case TypeLiteral(members) =>
        if steps[0].Member? && PropertyNamed(members, steps[0].name).Some? {
          CompleteProperty(w, depth - 1, n - 1, file, PropertyNamed(members, steps[0].name).value, steps, seen);
        }
      case Parenthesized(inner) => CompleteNode(w, depth - 1, n - 1, file, inner, steps, seen);
      case TypeOperator(_, inner) => CompleteNode(w, depth - 1, n - 1, file, inner, steps, seen);
      case Intersection(parts) =>
        CompleteAll(w, depth - 1, n - 1, file, parts, steps, seen);
        PartsAreComplete(w, n - 1, file, parts, steps, LookupAll(w, depth - 1, file, parts, steps, seen).0);
      case Union(parts) =>
        CompleteAll(w, depth - 1, n - 1, file, parts, steps, seen);
        PartsAreComplete(w, n - 1, file, parts, steps, LookupAll(w, depth - 1, file, parts, steps, seen).0);
      case ArrayType(element) =>
        if steps[0].Element? { CompleteNode(w, depth - 1, n - 1, file, element, steps[1..], seen); }
      case IndexedAccess(owner, index) =>
        if index.Some? { CompleteNode(w, depth - 1, n - 1, file, owner, [Member(index.value)] + steps, seen); }
      case TypeReference(head, qualified, args) => CompleteReference(w, depth, n, file, node, steps, seen);
      case OtherType =>
    }
  }

  lemma {:induction false} CompleteReference(
    w: World, depth: nat, n: nat, file: string, node: Node, steps: seq<Step>, seen: Seen)
    requires node.TypeReference? && depth > 0 && n > 0 && steps != []
    requires ClearNode(w, depth, file, node, steps, seen) && LookupNode(w, depth, file, node, steps, seen).0 != Overflow
    ensures ListedNode(w, n, file, node, steps) ==> LookupNode(w, depth, file, node, steps, seen).0 == Found
    ensures UnlistedNode(w, n, file, node, steps) ==> LookupNode(w, depth, file, node, steps, seen).0 == Missing
    decreases depth - 1, |steps| + 2
  {
    if node.head in PASSTHROUGH_WRAPPERS && node.args != [] {
      CompleteNode(w, depth - 1, n - 1, file, node.args[0], steps, seen);
    } else if node.head in ARRAYS && node.args != [] {
      if steps[0].Element? { CompleteNode(w, depth - 1, n - 1, file, node.args[0], steps[1..], seen); }
    } else if !node.qualified && Resolve(w, file, node.head).Some? {
      CompleteDecl(w, depth - 1, n - 1, Resolve(w, file, node.head).value, steps, seen);
    }
  }

  /** Without a repeated visit, and with stack enough, the guard is no loss: the answer is definite whenever the text decides. */
  lemma TextIsAnswered(w: World, d: DeclId, steps: seq<Step>, depth: nat, seen: Seen)
    requires ClearDecl(w, depth, d, steps, seen) && LookupDecl(w, depth, d, steps, seen).0 != Overflow
    ensures LookupDecl(w, depth, d, steps, seen).0 == Found <==> Listed(w, d, steps)
    ensures LookupDecl(w, depth, d, steps, seen).0 == Missing <==> Unlisted(w, d, steps)
  {
    SoundDecl(w, depth, d, steps, seen);
    if n: nat :| ListedDecl(w, n, d, steps) { CompleteDecl(w, depth, n, d, steps, seen); }
    if n: nat :| UnlistedDecl(w, n, d, steps) { CompleteDecl(w, depth, n, d, steps, seen); }
  }

  /**
   * In a plain world whose declarations take no type parameters, the answer is then found exactly
   * when the path is present and missing exactly when it is absent.
   */
  lemma AnswersAreComplete(w: World, d: DeclId, steps: seq<Step>, depth: nat, seen: Seen)
    requires PlainWorld(w) && WithoutParams(w)
    requires ClearDecl(w, depth, d, steps, seen) && LookupDecl(w, depth, d, steps, seen).0 != Overflow
    ensures LookupDecl(w, depth, d, steps, seen).0 == Found <==> Present(w, d, steps)
    ensures LookupDecl(w, depth, d, steps, seen).0 == Missing <==> Absent(w, d, steps)
  {
    TextIsAnswered(w, d, steps, depth, seen);
    forall n: nat ensures ListedDecl(w, n, d, steps) == PresentDecl(w, n, d, [], steps)
                          && UnlistedDecl(w, n, d, steps) == AbsentDecl(w, n, d, [], steps)
    {
      TextTellsDecl(w, n, d, [], steps);
    }
  }

  /** With a type parameter the walk may not know what its argument tells: `T` standing for `{ x }`. */
  lemma ParameterIsUnknown(w: World, scope: Scope, outer: Scope, declared: Option<Node>)
    requires scope.params == ["T"] && (scope.file, "T") !in w.names
    requires scope.actuals == [Closure(TypeLiteral([Property("x", Some("x"), declared)]), outer)]
    ensures forall depth: nat, seen | depth > 0 ::
              LookupNode(w, depth, scope.file, TypeReference("T", false, []), [Member("x")], seen).0 == Unknown
    ensures exists n :: PresentNode(w, n, scope, TypeReference("T", false, []), [Member("x")])
  {
    var p, steps := Property("x", Some("x"), declared), [Member("x")];
    assert p in [p] && Covers(p, "x") && PresentMember(w, 0, outer, p, steps);
    assert PresentNode(w, 1, outer, TypeLiteral([p]), steps);
    assert PresentNode(w, 2, scope, TypeReference("T", false, []), steps);
  }
}
