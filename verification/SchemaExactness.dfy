/**
 * Where the walk of scripts/gen-config-catalog.ts is right about every name,
 * and where it is not: exact conditions on the members of an interface without
 * heritage and of a type literal, and an input for each way it goes wrong.
 */
module SchemaExactness {
  import opened Prelude
  import opened SchemaPath
  import opened SchemaMeaning

  // ---- Written and declared names ----

  function Texts(members: seq<TypeElement>): set<string> {
    set m | m in members && m.Property? :: m.text
  }

  /** Every name covered is a name written, and every name written is covered. */
  predicate WrittenAsDeclared(written: seq<TypeElement>, all: seq<TypeElement>) {
    && (forall text | text in Texts(written) :: Covered(all, text))
    && (forall m | m in all ::
          match m
          case Property(_, name, _) => name.Some? && name.value in Texts(written)
          case OtherElement(covers, _) => covers != EveryName && (covers.OneName? ==> covers.name in Texts(written)))
  }

  /** A written name ought to be covered; any other ought not to be, not even by a computed name. */
  predicate RightName(written: seq<TypeElement>, all: seq<TypeElement>, name: string) {
    if name in Texts(written) then Covered(all, name) else !MaybeCovered(all, name)
  }

  lemma {:induction false} LongerThanAll(texts: set<string>) returns (name: string)
    ensures name !in texts && forall text | text in texts :: |text| < |name|
  {
    if texts == {} {
      name := "";
    } else {
      var text :| text in texts;
      var other := LongerThanAll(texts - {text});
      name := if |other| > |text| then other else text + "x";
    }
  }

  lemma MembersAreWritten(written: seq<TypeElement>, all: seq<TypeElement>)
    requires forall name :: RightName(written, all, name)
    ensures WrittenAsDeclared(written, all)
  {
    forall text | text in Texts(written) ensures Covered(all, text) {
      assert RightName(written, all, text);
    }
    forall m, name | m in all && MayCover(m, name) ensures name in Texts(written) {
      assert MaybeCovered(all, name) && RightName(written, all, name);
    }
    var other := LongerThanAll(Texts(written));
    forall m | m in all ensures m.Property? ==> m.name.Some? {
      assert MayCover(m, other) ==> other in Texts(written);
    }
    forall m | m in all && m.OtherElement? ensures m.covers != EveryName {
      assert MayCover(m, other) ==> other in Texts(written);
    }
    forall m | m in all && m.Property? && m.name.Some? ensures m.name.value in Texts(written) {
      assert MayCover(m, m.name.value);
    }
    forall m | m in all && m.OtherElement? && m.covers.OneName? ensures m.covers.name in Texts(written) {
      assert MayCover(m, m.covers.name);
    }
  }

  lemma RightNames(written: seq<TypeElement>, all: seq<TypeElement>)
    ensures (forall name :: RightName(written, all, name)) <==> WrittenAsDeclared(written, all)
  {
    if forall name :: RightName(written, all, name) { MembersAreWritten(written, all); }
  }

  // ---- Interfaces ----

  /** What the walk answers and what is true of a name in an interface without heritage. */
  lemma OneStep(w: World, d: DeclId, name: string, depth: nat)
    requires d in w.decls && w.decls[d].Interface? && w.decls[d].bases == [] && AllBases(w, d) == [] && depth > 0
    ensures LookupDecl(w, depth, d, [Member(name)], {}).0
            == if name in Texts(w.decls[d].members) then Found else Missing
    ensures Present(w, d, [Member(name)]) <==> Covered(AllMembers(w, d), name)
    ensures Absent(w, d, [Member(name)]) <==> !MaybeCovered(AllMembers(w, d), name)
  {
    var steps, scope, all := [Member(name)], Inside(w, d, []), AllMembers(w, d);
    MembersStep(w, 0, scope, all, name);
    assert PresentDecl(w, 1, d, [], steps) <==> Covered(all, name);
    assert AbsentDecl(w, 1, d, [], steps) <==> !MaybeCovered(all, name);
    if n: nat :| PresentDecl(w, n, d, [], steps) { MembersStep(w, n - 1, scope, all, name); }
    if n: nat :| AbsentDecl(w, n, d, [], steps) { MembersStep(w, n - 1, scope, all, name); }
    assert LookupBases(w, depth - 1, d.file, [], steps, {(d, 1)}).0 == [];
  }

  lemma MembersStep(w: World, n: nat, scope: Scope, members: seq<TypeElement>, name: string)
    ensures PresentMembers(w, n, scope, members, [Member(name)]) <==> Covered(members, name)
    ensures AbsentMembers(w, n, scope, members, [Member(name)]) <==> !MaybeCovered(members, name)
  {
    if m :| m in members && Covers(m, name) { assert PresentMember(w, n, scope, m, [Member(name)]); }
    if m :| m in members && MayCover(m, name) { assert !AbsentMember(w, n, scope, m, [Member(name)]); }
  }

  /** The walk's answer about one name is right. */
  ghost predicate RightAbout(w: World, d: DeclId, depth: nat, name: string) {
    var answer := LookupDecl(w, depth, d, [Member(name)], {}).0;
    && (answer == Found ==> Present(w, d, [Member(name)]))
    && (answer == Missing ==> Absent(w, d, [Member(name)]))
  }

  /**
   * Exactly when is the walk right about every name of an interface without
   * heritage? When every covered name is written as a property signature and
   * every written name is covered; one method, accessor, index signature, quoted
   * or computed name or merged declaration beyond that makes some answer wrong.
   */
  lemma InterfaceExactness(w: World, d: DeclId, depth: nat)
    requires d in w.decls && w.decls[d].Interface? && w.decls[d].bases == [] && AllBases(w, d) == [] && depth > 0
    ensures (forall name :: RightAbout(w, d, depth, name)) <==> WrittenAsDeclared(w.decls[d].members, AllMembers(w, d))
  {
    var written, all := w.decls[d].members, AllMembers(w, d);
    forall name ensures RightAbout(w, d, depth, name) <==> RightName(written, all, name) {
      OneStep(w, d, name, depth);
    }
    RightNames(written, all);
    if !(forall name :: RightAbout(w, d, depth, name)) {
      var name :| !RightAbout(w, d, depth, name);
      assert !RightName(written, all, name);
    } else {
      forall name ensures RightName(written, all, name) { assert RightAbout(w, d, depth, name); }
    }
  }

  // ---- Type nodes ----

  ghost predicate Has(w: World, scope: Scope, node: Node, steps: seq<Step>) {
    exists n :: PresentNode(w, n, scope, node, steps)
  }

  ghost predicate Lacks(w: World, scope: Scope, node: Node, steps: seq<Step>) {
    exists n :: AbsentNode(w, n, scope, node, steps)
  }

  ghost predicate RightAboutNode(w: World, scope: Scope, node: Node, depth: nat, name: string) {
    var answer := LookupNode(w, depth, scope.file, node, [Member(name)], {}).0;
    && (answer == Found ==> Has(w, scope, node, [Member(name)]))
    && (answer == Missing ==> Lacks(w, scope, node, [Member(name)]))
  }

  /** What the walk answers and what is true of a name in a type literal. */
  lemma LiteralStep(w: World, scope: Scope, members: seq<TypeElement>, name: string, depth: nat)
    requires depth > 0
    ensures LookupNode(w, depth, scope.file, TypeLiteral(members), [Member(name)], {}).0
            == if name in Texts(members) then Found else Missing
    ensures Has(w, scope, TypeLiteral(members), [Member(name)]) <==> Covered(members, name)
    ensures Lacks(w, scope, TypeLiteral(members), [Member(name)]) <==> !MaybeCovered(members, name)
  {
    var steps, node := [Member(name)], TypeLiteral(members);
    MembersStep(w, 0, scope, members, name);
    assert PresentNode(w, 1, scope, node, steps) <==> Covered(members, name);
    assert AbsentNode(w, 1, scope, node, steps) <==> !MaybeCovered(members, name);
    if n: nat :| PresentNode(w, n, scope, node, steps) { MembersStep(w, n - 1, scope, members, name); }
    if n: nat :| AbsentNode(w, n, scope, node, steps) { MembersStep(w, n - 1, scope, members, name); }
  }

  /** The same condition is exact on a type literal, which has no heritage and is never merged. */
  lemma LiteralExactness(w: World, scope: Scope, members: seq<TypeElement>, depth: nat)
    requires depth > 0
    ensures (forall name :: RightAboutNode(w, scope, TypeLiteral(members), depth, name)) <==> WrittenAsDeclared(members, members)
  {
    var node := TypeLiteral(members);
    forall name ensures RightAboutNode(w, scope, node, depth, name) <==> RightName(members, members, name) {
      LiteralStep(w, scope, members, name, depth);
    }
    RightNames(members, members);
    if !(forall name :: RightAboutNode(w, scope, node, depth, name)) {
      var name :| !RightAboutNode(w, scope, node, depth, name);
      assert !RightName(members, members, name);
    } else {
      forall name ensures RightName(members, members, name) { assert RightAboutNode(w, scope, node, depth, name); }
    }
  }

  // ---- Witnesses on members ----

  /** `interface C { foo(): void }`, `{ get foo(): T }` and the like: `foo` is declared and reported missing. */
  lemma MethodIsMissed(w: World, d: DeclId, declared: Option<Node>)
    requires d in w.decls && d !in w.merged && w.decls[d] == Interface([], [OtherElement(OneName("foo"), declared)], [])
    ensures LookupDecl(w, 1, d, [Member("foo")], {}).0 == Missing
    ensures Present(w, d, [Member("foo")]) && !Absent(w, d, [Member("foo")])
  {
    OneStep(w, d, "foo", 1);
    NeverBoth(w, d, [Member("foo")]);
    assert AllMembers(w, d)[0] in AllMembers(w, d);
  }

  /** The same in a type literal. */
  lemma LiteralMethodIsMissed(w: World, scope: Scope, declared: Option<Node>)
    ensures var literal := TypeLiteral([OtherElement(OneName("foo"), declared)]);
            && LookupNode(w, 1, scope.file, literal, [Member("foo")], {}).0 == Missing
            && Has(w, scope, literal, [Member("foo")]) && !Lacks(w, scope, literal, [Member("foo")])
  {
    var members := [OtherElement(OneName("foo"), declared)];
    LiteralStep(w, scope, members, "foo", 1);
    assert members[0] in members && Covers(members[0], "foo") && MayCover(members[0], "foo");
  }

  /** `interface C { [k: string]: T }`: every name is covered and reported missing. */
  lemma IndexSignatureIsMissed(w: World, d: DeclId, declared: Option<Node>, name: string)
    requires d in w.decls && d !in w.merged && w.decls[d] == Interface([], [OtherElement(EveryName, declared)], [])
    ensures LookupDecl(w, 1, d, [Member(name)], {}).0 == Missing
    ensures Present(w, d, [Member(name)]) && !Absent(w, d, [Member(name)])
  {
    OneStep(w, d, name, 1);
    NeverBoth(w, d, [Member(name)]);
    assert AllMembers(w, d)[0] in AllMembers(w, d);
  }

  /** `interface C { 'foo-bar': T }`: the schema key has no quotes, the written name has. */
  lemma QuotedNameIsMissed(w: World, d: DeclId, declared: Option<Node>)
    requires d in w.decls && d !in w.merged && w.decls[d] == Interface([], [Property("'foo-bar'", Some("foo-bar"), declared)], [])
    ensures LookupDecl(w, 1, d, [Member("foo-bar")], {}).0 == Missing
    ensures Present(w, d, [Member("foo-bar")]) && !Absent(w, d, [Member("foo-bar")])
  {
    OneStep(w, d, "foo-bar", 1);
    NeverBoth(w, d, [Member("foo-bar")]);
    assert AllMembers(w, d)[0] in AllMembers(w, d);
    assert |"'foo-bar'"| != |"foo-bar"|;
  }

  /**
   * `interface C {}` and, in the same file, a second `interface C { b: T }` or a
   * `class C { b: T }`: what is merged into the first one is not read.
   */
  lemma MergedMemberIsMissed(w: World, d: DeclId, declared: Option<Node>)
    requires d in w.decls && w.decls[d] == Interface([], [], [])
    requires d in w.merged && w.merged[d] == [Interface([], [Property("b", Some("b"), declared)], [])]
    ensures LookupDecl(w, 1, d, [Member("b")], {}).0 == Missing
    ensures Present(w, d, [Member("b")]) && !Absent(w, d, [Member("b")])
  {
    assert MembersOf([]) == [] && BasesOf([]) == [];
    assert BasesOf(w.merged[d]) == [] && MembersOf(w.merged[d]) == [Property("b", Some("b"), declared)];
    assert AllMembers(w, d)[0] == Property("b", Some("b"), declared);
    assert AllMembers(w, d)[0] in AllMembers(w, d);
    OneStep(w, d, "b", 1);
    NeverBoth(w, d, [Member("b")]);
  }

  // ---- Witnesses on names of types ----

  /** `type Partial<T> = { p: T }` in the file: the walk looks into the argument of `Partial<{}>` and reports `p` missing. */
  lemma HiddenWrapperIsMissed(w: World, scope: Scope, d: DeclId)
    requires scope.params == [] && (scope.file, "Partial") in w.names && w.names[(scope.file, "Partial")] == d
    requires d in w.decls && w.decls[d] == Alias(["T"], TypeLiteral([Property("p", Some("p"), Some(TypeReference("T", false, [])))]))
    ensures var node := TypeReference("Partial", false, [TypeLiteral([])]);
            && LookupNode(w, 2, scope.file, node, [Member("p")], {}).0 == Missing
            && Has(w, scope, node, [Member("p")])
  {
    var empty, steps := TypeLiteral([]), [Member("p")];
    var node := TypeReference("Partial", false, [empty]);
    var p := Property("p", Some("p"), Some(TypeReference("T", false, [])));
    LiteralStep(w, scope, [], "p", 1);
    var inside := Inside(w, d, Close([empty], scope));
    assert p in [p] && Covers(p, "p") && PresentMember(w, 0, inside, p, steps);
    assert PresentNode(w, 1, inside, TypeLiteral([p]), steps);
    assert PresentDecl(w, 2, d, Close([empty], scope), steps);
    assert PresentNode(w, 3, scope, node, steps);
  }

  /**
   * One file with `interface Section<Options> { options: Options }`,
   * `interface Options { name }`, `interface Limits { limit }` and
   * `interface Config { tools: Section<Limits> }`, in this order.
   */
  function Generic(): World {
    var section, options, limits, config := DeclId("f", 0), DeclId("f", 1), DeclId("f", 2), DeclId("f", 3);
    World(map[section := Interface(["Options"], [Property("options", Some("options"), Some(TypeReference("Options", false, [])))], []),
              options := Interface([], [Property("name", Some("name"), None)], []),
              limits := Interface([], [Property("limit", Some("limit"), None)], []),
              config := Interface([], [Property("tools", Some("tools"), Some(TypeReference("Section", false, [TypeReference("Limits", false, [])])))], [])],
          map[("f", "Section") := section, ("f", "Options") := options, ("f", "Limits") := limits, ("f", "Config") := config],
          map[], {})
  }

  /** The walk takes the parameter `Options` for the interface of that name, so it reports `tools.options.limit` missing. */
  lemma ParameterIsMissed(d: DeclId, steps: seq<Step>)
    requires d == DeclId("f", 3) && steps == [Member("tools"), Member("options"), Member("limit")]
    ensures LookupDecl(Generic(), 5, d, steps, {}).0 == Missing
    ensures Present(Generic(), d, steps) && !Absent(Generic(), d, steps)
  {
    ParameterAnswer(Generic(), d, steps);
    ParameterMeaning(Generic(), d, steps);
    NeverBoth(Generic(), d, steps);
  }

  lemma OnlyProperty(p: TypeElement)
    requires p.Property?
    ensures PropertyNamed([p], p.text) == Some(p)
    ensures forall name | name != p.text :: PropertyNamed([p], name) == None
  {
  }

  /** An interface with one property answers as the property does. */
  lemma OnlyAnswer(w: World, depth: nat, d: DeclId, p: TypeElement, steps: seq<Step>, seen: Seen)
    requires d in w.decls && w.decls[d].Interface? && w.decls[d].members == [p] && p.Property?
    requires depth > 0 && steps != [] && steps[0] == Member(p.text) && (d, |steps|) !in seen
    ensures LookupDecl(w, depth, d, steps, seen) == LookupProperty(w, depth - 1, d.file, p, steps, seen + {(d, |steps|)})
  {
    OnlyProperty(p);
  }

  lemma NamedAnswer(w: World, depth: nat, file: string, head: string, args: seq<Node>, d: DeclId, steps: seq<Step>, seen: Seen)
    requires depth > 0 && steps != [] && head !in PASSTHROUGH_WRAPPERS + ARRAYS && Resolve(w, file, head) == Some(d)
    ensures LookupNode(w, depth, file, TypeReference(head, false, args), steps, seen) == LookupDecl(w, depth - 1, d, steps, seen)
  {
  }

  lemma ParameterAnswer(w: World, d: DeclId, steps: seq<Step>)
    requires w == Generic() && d == DeclId("f", 3) && steps == [Member("tools"), Member("options"), Member("limit")]
    ensures LookupDecl(w, 5, d, steps, {}).0 == Missing
  {
    var tools, section := w.decls[d].members[0], DeclId("f", 0);
    OnlyAnswer(w, 5, d, tools, steps, {});
    NamedAnswer(w, 4, "f", "Section", [TypeReference("Limits", false, [])], section, steps[1..], {(d, 3)});
    SectionAnswer(w, section, steps[1..], {(d, 3)});
  }

  lemma SectionAnswer(w: World, section: DeclId, steps: seq<Step>, seen: Seen)
    requires w == Generic() && section == DeclId("f", 0) && steps == [Member("options"), Member("limit")]
    requires seen == {(DeclId("f", 3), 3)}
    ensures LookupDecl(w, 3, section, steps, seen).0 == Missing
  {
    var options, inner, rest := DeclId("f", 1), w.decls[section].members[0], steps[1..];
    var visited := seen + {(section, 2)};
    OnlyAnswer(w, 3, section, inner, steps, seen);
    NamedAnswer(w, 2, "f", "Options", [], options, rest, visited);
    OnlyProperty(w.decls[options].members[0]);
    assert rest == [Member("limit")];
    assert LookupBases(w, 0, "f", [], rest, visited + {(options, 1)}).0 == [];
  }

  /** An interface with one property has what the property's type has. */
  lemma OnlyMember(w: World, n: nat, d: DeclId, actuals: seq<Closure>, p: TypeElement, steps: seq<Step>)
    requires d in w.decls && d !in w.merged && w.decls[d].Interface? && w.decls[d].members == [p] && p.Property?
    requires steps != [] && steps[0] == Member(p.text) && p.name == Some(p.text)
    requires PresentMember(w, n, Inside(w, d, actuals), p, steps)
    ensures PresentDecl(w, n + 1, d, actuals, steps)
  {
    assert MembersOf([]) == [] && AllMembers(w, d) == [p];
    assert p in [p] && Covers(p, p.text);
  }

  lemma ParameterMeaning(w: World, d: DeclId, steps: seq<Step>)
    requires w == Generic() && d == DeclId("f", 3) && steps == [Member("tools"), Member("options"), Member("limit")]
    ensures Present(w, d, steps)
  {
    var here, limits := Inside(w, d, []), TypeReference("Limits", false, []);
    var tools, steps1 := w.decls[d].members[0], steps[1..];
    SectionMeaning(w, DeclId("f", 0), here, steps1);
    assert Resolve(w, "f", "Section") == Some(DeclId("f", 0));
    assert PresentNode(w, 5, here, TypeReference("Section", false, [limits]), steps1);
    OnlyMember(w, 5, d, [], tools, steps);
  }

  lemma SectionMeaning(w: World, section: DeclId, here: Scope, steps: seq<Step>)
    requires w == Generic() && section == DeclId("f", 0) && steps == [Member("options"), Member("limit")]
    requires here == Scope("f", [], [])
    ensures PresentDecl(w, 4, section, Close([TypeReference("Limits", false, [])], here), steps)
  {
    var argument, limits, rest := TypeReference("Limits", false, []), DeclId("f", 2), steps[1..];
    var actuals := Close([argument], here);
    var inside, inner := Inside(w, section, actuals), w.decls[section].members[0];
    OnlyMember(w, 0, limits, [], w.decls[limits].members[0], rest);
    assert Close([], here) == [] && Resolve(w, "f", "Limits") == Some(limits);
    assert PresentNode(w, 2, here, argument, rest);
    assert Actual(["Options"], actuals, "Options") == Some(Closure(argument, here));
    assert PresentNode(w, 3, inside, TypeReference("Options", false, []), rest);
    OnlyMember(w, 3, section, actuals, inner, steps);
  }
}
