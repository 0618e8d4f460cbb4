/**
 * `keyof` in the walk of scripts/gen-config-catalog.ts. The walk looks through
 * it into the operand, although its values are names and not objects: which
 * operands make it answer wrongly, told from what their text lists.
 */
module SchemaKeyof {
  import opened Prelude
  import opened SchemaPath
  import opened SchemaMeaning
  import opened SchemaCompleteness
  import opened SchemaExactness
  import opened SchemaGuard
  import opened SchemaTermination

  // ---- Sets of names, finite or all but finitely many ----

  datatype NameSet = These(names: set<string>) | AllExcept(names: set<string>)

  predicate Holds(s: NameSet, name: string) {
    if s.These? then name in s.names else name !in s.names
  }

  function Or(a: NameSet, b: NameSet): (r: NameSet)
    ensures forall name :: Holds(r, name) <==> Holds(a, name) || Holds(b, name)
  {
    match (a, b)
    case (These(x), These(y)) => These(x + y)
    case (These(x), AllExcept(y)) => AllExcept(y - x)
    case (AllExcept(x), These(y)) => AllExcept(x - y)
    case (AllExcept(x), AllExcept(y)) => AllExcept(x * y)
  }

  function And(a: NameSet, b: NameSet): (r: NameSet)
    ensures forall name :: Holds(r, name) <==> Holds(a, name) && Holds(b, name)
  {
    match (a, b)
    case (These(x), These(y)) => These(x * y)
    case (These(x), AllExcept(y)) => These(x - y)
    case (AllExcept(x), These(y)) => These(y - x)
    case (AllExcept(x), AllExcept(y)) => AllExcept(x + y)
  }

  // ---- What the text of a type says of all names at once ----

  /** The names listed behind some path, and the names not listed there; of the others the text tells nothing. */
  datatype Names = Names(found: NameSet, missing: NameSet)

  const NOTHING := Names(These({}), These({}))

  function NamesDecl(w: World, n: nat, d: DeclId, prefix: seq<Step>): Names
    decreases n, 0
  {
    if n == 0 || d !in w.decls then NOTHING
    else
      match w.decls[d]
      case Alias(_, body) => NamesNode(w, n - 1, d.file, body, prefix)
      case Interface(_, members, bases) =>
        var inherited := NamesBases(w, n - 1, d.file, bases, prefix);
        if prefix == [] then
          var own := Texts(members);
          Names(Or(These(own), inherited.found), And(AllExcept(own), inherited.missing))
        else if prefix[0].Element? then NOTHING
        else
          var p := PropertyNamed(members, prefix[0].name);
          if p.Some? then NamesProperty(w, n - 1, d.file, p.value, prefix) else inherited
      case Enum => NOTHING
  }

  function NamesProperty(w: World, n: nat, file: string, p: TypeElement, prefix: seq<Step>): Names
    requires prefix != []
    decreases n, 1
  {
    if p.Property? && p.declared.Some? then NamesNode(w, n, file, p.declared.value, prefix[1..]) else NOTHING
  }

  function NamesBase(w: World, n: nat, file: string, b: Base, prefix: seq<Step>): Names
    decreases n, 1
  {
    if b.NamedBase? && Resolve(w, file, b.name).Some? then NamesDecl(w, n, Resolve(w, file, b.name).value, prefix) else NOTHING
  }

  /** Listed in some base, and not listed in any. */
  function NamesBases(w: World, n: nat, file: string, bases: seq<Base>, prefix: seq<Step>): Names
    decreases n, |bases| + 2
  {
    if bases == [] then Names(These({}), AllExcept({}))
    else
      var first, rest := NamesBase(w, n, file, bases[0], prefix), NamesBases(w, n, file, bases[1..], prefix);
      Names(Or(first.found, rest.found), And(first.missing, rest.missing))
  }

  function NamesSome(w: World, n: nat, file: string, parts: seq<Node>, prefix: seq<Step>): Names
    decreases n, |parts| + 1
  {
    if parts == [] then Names(These({}), AllExcept({}))
    else
      var first, rest := NamesNode(w, n, file, parts[0], prefix), NamesSome(w, n, file, parts[1..], prefix);
      Names(Or(first.found, rest.found), And(first.missing, rest.missing))
  }

  function NamesEvery(w: World, n: nat, file: string, parts: seq<Node>, prefix: seq<Step>): Names
    decreases n, |parts| + 1
  {
    if parts == [] then Names(AllExcept({}), AllExcept({}))
    else
      var first, rest := NamesNode(w, n, file, parts[0], prefix), NamesEvery(w, n, file, parts[1..], prefix);
      Names(And(first.found, rest.found), And(first.missing, rest.missing))
  }

  function NamesNode(w: World, n: nat, file: string, node: Node, prefix: seq<Step>): Names
    decreases n, 0
  {
    if n == 0 then NOTHING
    else
      match node
      case TypeLiteral(members) =>
        if prefix == [] then Names(These(Texts(members)), AllExcept(Texts(members)))
        else if prefix[0].Element? then NOTHING
        else
          var p := PropertyNamed(members, prefix[0].name);
          if p.Some? then NamesProperty(w, n - 1, file, p.value, prefix) else Names(These({}), AllExcept({}))
      case Parenthesized(inner) => NamesNode(w, n - 1, file, inner, prefix)
      case TypeOperator(_, inner) => NamesNode(w, n - 1, file, inner, prefix)
      case Intersection(parts) => NamesSome(w, n - 1, file, parts, prefix)
      case Union(parts) =>
        var every := NamesEvery(w, n - 1, file, parts, prefix);
        if parts == [] then Names(every.found, These({})) else every
      case ArrayType(element) =>
        if prefix != [] && prefix[0].Element? then NamesNode(w, n - 1, file, element, prefix[1..]) else NOTHING
      case IndexedAccess(owner, index) =>
        if index.Some? then NamesNode(w, n - 1, file, owner, [Member(index.value)] + prefix) else NOTHING
      case TypeReference(head, qualified, args) =>
        if head in PASSTHROUGH_WRAPPERS && args != [] then NamesNode(w, n - 1, file, args[0], prefix)
        else if head in ARRAYS && args != [] then
          if prefix != [] && prefix[0].Element? then NamesNode(w, n - 1, file, args[0], prefix[1..]) else NOTHING
        else if !qualified && Resolve(w, file, head).Some? then NamesDecl(w, n - 1, Resolve(w, file, head).value, prefix)
        else NOTHING
      case OtherType => NOTHING
  }

  // ---- It says what the judgements about single paths say ----

  ghost predicate Tells(names: Names, name: string, listed: bool, unlisted: bool) {
    (Holds(names.found, name) <==> listed) && (Holds(names.missing, name) <==> unlisted)
  }

  lemma TextsAreNamed(members: seq<TypeElement>, name: string)
    ensures name in Texts(members) <==> PropertyNamed(members, name).Some?
  {
  }

  lemma {:induction false} NamesTellDecl(w: World, n: nat, d: DeclId, prefix: seq<Step>, name: string)
    ensures Tells(NamesDecl(w, n, d, prefix), name,
                  ListedDecl(w, n, d, prefix + [Member(name)]), UnlistedDecl(w, n, d, prefix + [Member(name)]))
    decreases n, 0
  {
    if n > 0 && d in w.decls {
      var steps := prefix + [Member(name)];
      match w.decls[d]
      case Alias(_, body) => NamesTellNode(w, n - 1, d.file, body, prefix, name);
      case Interface(_, members, bases) =>
        NamesTellBases(w, n - 1, d.file, bases, prefix, name);
        TextsAreNamed(members, name);
        if prefix != [] && prefix[0].Member? && PropertyNamed(members, prefix[0].name).Some? {
          NamesTellProperty(w, n - 1, d.file, PropertyNamed(members, prefix[0].name).value, prefix, name);
        }
      case Enum =>
    }
  }

  lemma {:induction false} NamesTellProperty(w: World, n: nat, file: string, p: TypeElement, prefix: seq<Step>, name: string)
    requires prefix != []
    ensures Tells(NamesProperty(w, n, file, p, prefix), name,
                  ListedProperty(w, n, file, p, prefix + [Member(name)]), UnlistedProperty(w, n, file, p, prefix + [Member(name)]))
    decreases n, 1
  {
    if p.Property? && p.declared.Some? {
      NamesTellNode(w, n, file, p.declared.value, prefix[1..], name);
      assert (prefix + [Member(name)])[1..] == prefix[1..] + [Member(name)];
    }
  }

  lemma HeadOrTail<T>(s: seq<T>, p: T -> bool)
    requires s != []
    ensures (exists x | x in s :: p(x)) <==> p(s[0]) || exists x | x in s[1..] :: p(x)
    ensures (forall x | x in s :: p(x)) <==> p(s[0]) && forall x | x in s[1..] :: p(x)
  {
    assert s == [s[0]] + s[1..];
  }

  lemma {:induction false} NamesTellBase(w: World, n: nat, file: string, b: Base, prefix: seq<Step>, name: string)
    ensures Tells(NamesBase(w, n, file, b, prefix), name,
                  ListedBase(w, n, file, b, prefix + [Member(name)]), UnlistedBase(w, n, file, b, prefix + [Member(name)]))
    decreases n, 1
  {
    if b.NamedBase? && Resolve(w, file, b.name).Some? {
      NamesTellDecl(w, n, Resolve(w, file, b.name).value, prefix, name);
    }
  }

  lemma {:induction false} NamesTellBases(w: World, n: nat, file: string, bases: seq<Base>, prefix: seq<Step>, name: string)
    ensures var steps := prefix + [Member(name)];
            Tells(NamesBases(w, n, file, bases, prefix), name,
                  exists b | b in bases :: ListedBase(w, n, file, b, steps),
                  forall b | b in bases :: UnlistedBase(w, n, file, b, steps))
    decreases n, |bases| + 2
  {
    if bases != [] {
      NamesTellBases(w, n, file, bases[1..], prefix, name);
      NamesTellBase(w, n, file, bases[0], prefix, name);
      HeadOrTail(bases, (b: Base) => ListedBase(w, n, file, b, prefix + [Member(name)]));
      HeadOrTail(bases, (b: Base) => UnlistedBase(w, n, file, b, prefix + [Member(name)]));
    }
  }

  lemma {:induction false} NamesTellSome(w: World, n: nat, file: string, parts: seq<Node>, prefix: seq<Step>, name: string)
    ensures var steps := prefix + [Member(name)];
            Tells(NamesSome(w, n, file, parts, prefix), name,
                  exists part | part in parts :: ListedNode(w, n, file, part, steps),
                  forall part | part in parts :: UnlistedNode(w, n, file, part, steps))
    decreases n, |parts| + 1
  {
    if parts != [] {
      NamesTellSome(w, n, file, parts[1..], prefix, name);
      NamesTellNode(w, n, file, parts[0], prefix, name);
      HeadOrTail(parts, (part: Node) => ListedNode(w, n, file, part, prefix + [Member(name)]));
      HeadOrTail(parts, (part: Node) => UnlistedNode(w, n, file, part, prefix + [Member(name)]));
    }
  }

  lemma {:induction false} NamesTellEvery(w: World, n: nat, file: string, parts: seq<Node>, prefix: seq<Step>, name: string)
    ensures var steps := prefix + [Member(name)];
            Tells(NamesEvery(w, n, file, parts, prefix), name,
                  forall part | part in parts :: ListedNode(w, n, file, part, steps),
                  forall part | part in parts :: UnlistedNode(w, n, file, part, steps))
    decreases n, |parts| + 1
  {
    if parts != [] {
      NamesTellEvery(w, n, file, parts[1..], prefix, name);
      NamesTellNode(w, n, file, parts[0], prefix, name);
      HeadOrTail(parts, (part: Node) => ListedNode(w, n, file, part, prefix + [Member(name)]));
      HeadOrTail(parts, (part: Node) => UnlistedNode(w, n, file, part, prefix + [Member(name)]));
    }
  }

  lemma {:induction false} NamesTellNode(w: World, n: nat, file: string, node: Node, prefix: seq<Step>, name: string)
    ensures Tells(NamesNode(w, n, file, node, prefix), name,
                  ListedNode(w, n, file, node, prefix + [Member(name)]), UnlistedNode(w, n, file, node, prefix + [Member(name)]))
    decreases n, 0
  {
    if n > 0 {
      match node
      case TypeLiteral(members) => NamesTellLiteral(w, n, file, members, prefix, name);
      case Parenthesized(inner) => NamesTellNode(w, n - 1, file, inner, prefix, name);
      case TypeOperator(_, inner) => NamesTellNode(w, n - 1, file, inner, prefix, name);
      case Intersection(parts) => NamesTellSome(w, n - 1, file, parts, prefix, name);
      case Union(parts) => NamesTellEvery(w, n - 1, file, parts, prefix, name);
      case ArrayType(element) =>
        if prefix != [] {
          NamesTellNode(w, n - 1, file, element, prefix[1..], name);
          assert (prefix + [Member(name)])[1..] == prefix[1..] + [Member(name)];
        }
      case IndexedAccess(owner, index) =>
        if index.Some? {
          NamesTellNode(w, n - 1, file, owner, [Member(index.value)] + prefix, name);
          assert [Member(index.value)] + (prefix + [Member(name)]) == [Member(index.value)] + prefix + [Member(name)];
        }
      case TypeReference(_, _, _) => NamesTellReference(w, n, file, node, prefix, name);
      case OtherType =>
    }
  }

  lemma {:induction false} NamesTellLiteral(w: World, n: nat, file: string, members: seq<TypeElement>, prefix: seq<Step>, name: string)
    requires n > 0
    ensures Tells(NamesNode(w, n, file, TypeLiteral(members), prefix), name,
                  ListedNode(w, n, file, TypeLiteral(members), prefix + [Member(name)]),
                  UnlistedNode(w, n, file, TypeLiteral(members), prefix + [Member(name)]))
    decreases n - 1, 2
  {
    TextsAreNamed(members, name);
    if prefix != [] && prefix[0].Member? && PropertyNamed(members, prefix[0].name).Some? {
      NamesTellProperty(w, n - 1, file, PropertyNamed(members, prefix[0].name).value, prefix, name);
    }
  }

  lemma {:induction false} NamesTellReference(w: World, n: nat, file: string, node: Node, prefix: seq<Step>, name: string)
    requires node.TypeReference? && n > 0
    ensures Tells(NamesNode(w, n, file, node, prefix), name,
                  ListedNode(w, n, file, node, prefix + [Member(name)]), UnlistedNode(w, n, file, node, prefix + [Member(name)]))
    decreases n - 1, |node.args| + 3
  {
    if node.args != [] {
      NamesTellNode(w, n - 1, file, node.args[0], prefix, name);
      if prefix != [] {
        NamesTellNode(w, n - 1, file, node.args[0], prefix[1..], name);
        assert (prefix + [Member(name)])[1..] == prefix[1..] + [Member(name)];
      }
    }
    if Resolve(w, file, node.head).Some? { NamesTellDecl(w, n - 1, Resolve(w, file, node.head).value, prefix, name); }
  }

  // ---- The answers about `keyof` ----

  function KeyofAnswer(w: World, depth: nat, file: string, inner: Node, name: string): Lookup {
    LookupNode(w, depth, file, TypeOperator(Keyof, inner), [Member(name)], {}).0
  }

  /** What is true of `keyof`: it has no member, and lacks every name that is none of a string, number or symbol. */
  lemma KeyofMeaning(w: World, scope: Scope, inner: Node, name: string)
    ensures !Has(w, scope, TypeOperator(Keyof, inner), [Member(name)])
    ensures name !in w.keyNames ==> Lacks(w, scope, TypeOperator(Keyof, inner), [Member(name)])
  {
    forall n: nat ensures !PresentNode(w, n, scope, TypeOperator(Keyof, inner), [Member(name)]) { }
    assert name !in w.keyNames ==> AbsentNode(w, 1, scope, TypeOperator(Keyof, inner), [Member(name)]);
  }

  /** A definite answer follows what the operand's text says of the name, whatever the operand. */
  lemma KeyofFollowsText(w: World, depth: nat, file: string, inner: Node, name: string)
    requires depth > 0
    ensures var names := NamesNode(w, depth - 1, file, inner, []);
            && (KeyofAnswer(w, depth, file, inner, name) == Found ==> Holds(names.found, name))
            && (KeyofAnswer(w, depth, file, inner, name) == Missing ==> Holds(names.missing, name))
  {
    assert [] + [Member(name)] == [Member(name)];
    NamesTellNode(w, depth - 1, file, inner, [], name);
    SoundNode(w, depth - 1, file, inner, [Member(name)], {});
  }

  /** And it does follow where the guard does not fire and the stack suffices. */
  lemma KeyofReadsOperand(w: World, depth: nat, file: string, inner: Node, name: string)
    requires depth > 0 && ApartNode(w, depth - 1, file, inner, 1) && KeyofAnswer(w, depth, file, inner, name) != Overflow
    ensures var names := NamesNode(w, depth - 1, file, inner, []);
            && (KeyofAnswer(w, depth, file, inner, name) == Found <==> Holds(names.found, name))
            && (KeyofAnswer(w, depth, file, inner, name) == Missing <==> Holds(names.missing, name))
  {
    var steps := [Member(name)];
    assert [] + steps == steps;
    NamesTellNode(w, depth - 1, file, inner, [], name);
    GuardNode(w, depth - 1, file, inner, steps, {});
    SoundNode(w, depth - 1, file, inner, steps, {});
    CompleteNode(w, depth - 1, depth - 1, file, inner, steps, {});
  }

  lemma SomeNameHeld(s: NameSet, besides: set<string>)
    ensures (forall name | Holds(s, name) :: name in besides) <==> s.These? && s.names <= besides
  {
    if s.AllExcept? {
      var name := LongerThanAll(s.names + besides);
      assert Holds(s, name);
    } else {
      forall name | name in s.names ensures Holds(s, name) { }
    }
  }

  /** On an operand that lists no names but those of strings, numbers and symbols the walk is right, guard or not. */
  lemma KeyofIsRight(w: World, depth: nat, scope: Scope, inner: Node, name: string)
    requires depth > 0 && name !in w.keyNames
    requires var listed := NamesNode(w, depth - 1, scope.file, inner, []).found; listed.These? && listed.names <= w.keyNames
    ensures RightAboutNode(w, scope, TypeOperator(Keyof, inner), depth, name)
  {
    KeyofMeaning(w, scope, inner, name);
    KeyofFollowsText(w, depth, scope.file, inner, name);
  }

  /**
   * When is the walk right about `keyof T`? Finding a member is never right,
   * missing one is. So it is right about every name that is no member of a
   * string, number or symbol exactly when the text of `T` lists no such name.
   */
  lemma KeyofExactness(w: World, depth: nat, scope: Scope, inner: Node)
    requires depth > 0 && ApartNode(w, depth - 1, scope.file, inner, 1)
    requires forall name :: KeyofAnswer(w, depth, scope.file, inner, name) != Overflow
    ensures var listed := NamesNode(w, depth - 1, scope.file, inner, []).found;
            (forall name | name !in w.keyNames :: RightAboutNode(w, scope, TypeOperator(Keyof, inner), depth, name))
            <==> listed.These? && listed.names <= w.keyNames
  {
    var node, listed := TypeOperator(Keyof, inner), NamesNode(w, depth - 1, scope.file, inner, []).found;
    forall name | name !in w.keyNames ensures RightAboutNode(w, scope, node, depth, name) <==> !Holds(listed, name) {
      KeyofMeaning(w, scope, inner, name);
      KeyofReadsOperand(w, depth, scope.file, inner, name);
    }
    SomeNameHeld(listed, w.keyNames);
    if name :| name !in w.keyNames && Holds(listed, name) {
      assert !RightAboutNode(w, scope, node, depth, name);
    }
  }

  /**
   * When does the walk keep its promise, unknown for what it cannot see through?
   * Exactly when the text of the operand tells nothing of any name.
   */
  lemma KeyofKeepsPromise(w: World, depth: nat, file: string, inner: Node)
    requires depth > 0 && ApartNode(w, depth - 1, file, inner, 1)
    requires forall name :: KeyofAnswer(w, depth, file, inner, name) != Overflow
    ensures (forall name :: KeyofAnswer(w, depth, file, inner, name) == Unknown)
            <==> NamesNode(w, depth - 1, file, inner, []) == NOTHING
  {
    var names := NamesNode(w, depth - 1, file, inner, []);
    forall name ensures KeyofAnswer(w, depth, file, inner, name) == Unknown <==> !Holds(names.found, name) && !Holds(names.missing, name) {
      KeyofReadsOperand(w, depth, file, inner, name);
    }
    SomeNameHeld(names.found, {});
    SomeNameHeld(names.missing, {});
    if forall name :: KeyofAnswer(w, depth, file, inner, name) == Unknown {
      forall name ensures !Holds(names.found, name) && !Holds(names.missing, name) {
        assert KeyofAnswer(w, depth, file, inner, name) == Unknown;
      }
      assert names.found == These({}) && names.missing == These({});
    }
  }

  /** One stack depth is enough for every name, if a budget pays for the operand. */
  lemma KeyofReturns(w: World, budget: Budget, file: string, inner: Node, b: nat) returns (bound: nat)
    requires WithinBudget(w, budget) && Affords(w, budget, file, inner, b)
    ensures forall depth: nat, name | depth >= bound :: KeyofAnswer(w, depth, file, inner, name) != Overflow
  {
    var h := HeightsAreBounded(w.decls);
    assert Tame(w, budget, h);
    var node := TypeOperator(Keyof, inner);
    bound := Reserve(w, h, b + 1, {}) + Height(node) + 1;
    forall depth: nat, name | depth >= bound ensures KeyofAnswer(w, depth, file, inner, name) != Overflow {
      EnoughNode(w, budget, h, b + 1, depth, file, node, b, [Member(name)], {});
    }
  }

  // ---- Operands the walk reads ----

  /** On `keyof` of a type literal every name gets a definite answer, wrong for each written one. */
  lemma KeyofLiteral(w: World, depth: nat, scope: Scope, members: seq<TypeElement>, name: string)
    requires depth >= 2
    ensures KeyofAnswer(w, depth, scope.file, TypeLiteral(members), name) == if name in Texts(members) then Found else Missing
    ensures name !in w.keyNames ==>
              (RightAboutNode(w, scope, TypeOperator(Keyof, TypeLiteral(members)), depth, name) <==> name !in Texts(members))
  {
    LiteralStep(w, scope, members, name, depth - 1);
    KeyofMeaning(w, scope, TypeLiteral(members), name);
  }

  /** And on `keyof` of an interface without heritage. */
  lemma KeyofInterface(w: World, depth: nat, scope: Scope, head: string, d: DeclId, name: string)
    requires depth >= 3 && Resolve(w, scope.file, head) == Some(d)
    requires w.decls[d].Interface? && w.decls[d].bases == []
    ensures var inner := TypeReference(head, false, []);
            && KeyofAnswer(w, depth, scope.file, inner, name) == (if name in Texts(w.decls[d].members) then Found else Missing)
            && (name !in w.keyNames ==>
                  (RightAboutNode(w, scope, TypeOperator(Keyof, inner), depth, name) <==> name !in Texts(w.decls[d].members)))
  {
    var inner, steps := TypeReference(head, false, []), [Member(name)];
    TextsAreNamed(w.decls[d].members, name);
    assert LookupBases(w, depth - 3, d.file, [], steps, {(d, 1)}).0 == [];
    assert LookupDecl(w, depth - 2, d, steps, {}).0 == if name in Texts(w.decls[d].members) then Found else Missing;
    assert LookupNode(w, depth - 1, scope.file, inner, steps, {}) == LookupDecl(w, depth - 2, d, steps, {});
    assert KeyofAnswer(w, depth, scope.file, inner, name) == LookupNode(w, depth - 1, scope.file, inner, steps, {}).0;
    KeyofMeaning(w, scope, inner, name);
  }

  // ---- Operands the walk cannot see through ----

  /** No path that starts with a name gets a definite answer on this type. */
  predicate OpaqueDecl(w: World, n: nat, d: DeclId)
    decreases n, 0
  {
    n > 0 && d in w.decls ==>
      match w.decls[d]
      case Alias(_, body) => OpaqueNode(w, n - 1, d.file, body)
      case Interface(_, members, bases) =>
        && (forall m | m in members :: !m.Property?)
        && bases != [] && forall b | b in bases :: OpaqueBase(w, n - 1, d.file, b)
      case Enum => true
  }

  predicate OpaqueBase(w: World, n: nat, file: string, b: Base)
    decreases n, 1
  {
    b.NamedBase? && Resolve(w, file, b.name).Some? ==> OpaqueDecl(w, n, Resolve(w, file, b.name).value)
  }

  predicate OpaqueNode(w: World, n: nat, file: string, node: Node)
    decreases n, 0
  {
    n > 0 ==>
      match node
      case TypeLiteral(_) => false
      case Parenthesized(inner) => OpaqueNode(w, n - 1, file, inner)
      case TypeOperator(_, inner) => OpaqueNode(w, n - 1, file, inner)
      case Intersection(parts) => parts != [] && forall part | part in parts :: OpaqueNode(w, n - 1, file, part)
      case Union(parts) => exists part | part in parts :: OpaqueNode(w, n - 1, file, part)
      case ArrayType(_) => true
      case IndexedAccess(owner, index) => index.Some? ==> OpaqueNode(w, n - 1, file, owner)
      case TypeReference(head, qualified, args) =>
        if head in PASSTHROUGH_WRAPPERS && args != [] then OpaqueNode(w, n - 1, file, args[0])
        else if head in ARRAYS && args != [] then true
        else !qualified && Resolve(w, file, head).Some? ==> OpaqueDecl(w, n - 1, Resolve(w, file, head).value)
      case OtherType => true
  }

  predicate Indefinite(answer: Lookup) {
    answer == Unknown || answer == Overflow
  }

  lemma {:induction false} OpaqueDeclAnswers(w: World, depth: nat, d: DeclId, steps: seq<Step>, seen: Seen)
    requires OpaqueDecl(w, depth, d) && steps != [] && steps[0].Member?
    ensures Indefinite(LookupDecl(w, depth, d, steps, seen).0)
    decreases depth, 0
  {
    if depth > 0 && d in w.decls && !w.decls[d].Enum? && (d, |steps|) !in seen {
      var visited := seen + {(d, |steps|)};
      match w.decls[d]
      case Alias(_, body) => OpaqueNodeAnswers(w, depth - 1, d.file, body, steps, visited);
      case Interface(_, members, bases) =>
        OpaqueBases(w, depth - 1, d.file, bases, steps, visited);
        var results := LookupBases(w, depth - 1, d.file, bases, steps, visited).0;
        assert results[0] in results;
    }
  }

  lemma {:induction false} OpaqueBases(w: World, depth: nat, file: string, bases: seq<Base>, steps: seq<Step>, seen: Seen)
    requires (forall b | b in bases :: OpaqueBase(w, depth, file, b)) && steps != [] && steps[0].Member?
    ensures forall r | r in LookupBases(w, depth, file, bases, steps, seen).0 :: Indefinite(r)
    decreases depth, |bases| + 1
  {
    if bases != [] {
      var target := if bases[0].NamedBase? then Resolve(w, file, bases[0].name) else None;
      assert OpaqueBase(w, depth, file, bases[0]);
      if target.Some? { OpaqueDeclAnswers(w, depth, target.value, steps, seen); }
      OpaqueBases(w, depth, file, bases[1..], steps, if target.None? then seen else LookupDecl(w, depth, target.value, steps, seen).1);
    }
  }

  lemma {:induction false} OpaqueParts(w: World, depth: nat, file: string, parts: seq<Node>, steps: seq<Step>, seen: Seen)
    requires steps != [] && steps[0].Member?
    ensures forall i | 0 <= i < |parts| && OpaqueNode(w, depth, file, parts[i]) ::
              Indefinite(LookupAll(w, depth, file, parts, steps, seen).0[i])
    decreases depth, |parts| + 1
  {
    if parts != [] {
      if OpaqueNode(w, depth, file, parts[0]) { OpaqueNodeAnswers(w, depth, file, parts[0], steps, seen); }
      OpaqueParts(w, depth, file, parts[1..], steps, LookupNode(w, depth, file, parts[0], steps, seen).1);
    }
  }

  /**
   * `keyof` keeps the promise on an operand the walk cannot see through: an
   * unresolved, qualified or enum reference, another type, and composites of
   * these, whatever was seen before and on every path that starts with a name.
   */
  lemma {:induction false} OpaqueNodeAnswers(w: World, depth: nat, file: string, node: Node, steps: seq<Step>, seen: Seen)
    requires OpaqueNode(w, depth, file, node) && steps != [] && steps[0].Member?
    ensures Indefinite(LookupNode(w, depth, file, node, steps, seen).0)
    decreases depth, 0
  {
    if depth > 0 {
      match node
      case Parenthesized(inner) => OpaqueNodeAnswers(w, depth - 1, file, inner, steps, seen);
      case TypeOperator(_, inner) => OpaqueNodeAnswers(w, depth - 1, file, inner, steps, seen);
      case Intersection(parts) =>
        OpaqueParts(w, depth - 1, file, parts, steps, seen);
        var results := LookupAll(w, depth - 1, file, parts, steps, seen).0;
        assert results[0] in results;
        forall r | r in results ensures Indefinite(r) {
          var i :| 0 <= i < |results| && results[i] == r;
          assert parts[i] in parts;
        }
      case Union(parts) =>
        OpaqueParts(w, depth - 1, file, parts, steps, seen);
        var part :| part in parts && OpaqueNode(w, depth - 1, file, part);
        var i :| 0 <= i < |parts| && parts[i] == part;
        assert LookupAll(w, depth - 1, file, parts, steps, seen).0[i] in LookupAll(w, depth - 1, file, parts, steps, seen).0;
      case ArrayType(_) =>
      case IndexedAccess(owner, index) =>
        if index.Some? { OpaqueNodeAnswers(w, depth - 1, file, owner, [Member(index.value)] + steps, seen); }
      case TypeReference(head, qualified, args) =>
        if head in PASSTHROUGH_WRAPPERS && args != [] {
          OpaqueNodeAnswers(w, depth - 1, file, args[0], steps, seen);
        } else if !(head in ARRAYS && args != []) && !qualified && Resolve(w, file, head).Some? {
          OpaqueDeclAnswers(w, depth - 1, Resolve(w, file, head).value, steps, seen);
        }
      case OtherType =>
    }
  }

  lemma OpaqueKeyof(w: World, depth: nat, file: string, inner: Node, steps: seq<Step>, seen: Seen)
    requires depth > 0 && OpaqueNode(w, depth - 1, file, inner) && steps != [] && steps[0].Member?
    ensures Indefinite(LookupNode(w, depth, file, TypeOperator(Keyof, inner), steps, seen).0)
  {
    OpaqueNodeAnswers(w, depth, file, TypeOperator(Keyof, inner), steps, seen);
  }

  /** `keyof { x: T }`: the operand's `x` is reported as found, and `zz` rightly as missing. */
  lemma KeyofIsFound(w: World, scope: Scope, declared: Option<Node>)
    requires {"x", "zz"} !! w.keyNames
    ensures var literal := TypeLiteral([Property("x", Some("x"), declared)]);
            && KeyofAnswer(w, 2, scope.file, literal, "x") == Found && Lacks(w, scope, TypeOperator(Keyof, literal), [Member("x")])
            && KeyofAnswer(w, 2, scope.file, literal, "zz") == Missing && Lacks(w, scope, TypeOperator(Keyof, literal), [Member("zz")])
  {
    var p := Property("x", Some("x"), declared);
    assert [p][0] in [p] && Texts([p]) == {"x"};
    KeyofLiteral(w, 2, scope, [p], "x");
    KeyofLiteral(w, 2, scope, [p], "zz");
    KeyofMeaning(w, scope, TypeLiteral([p]), "x");
    KeyofMeaning(w, scope, TypeLiteral([p]), "zz");
  }
}
