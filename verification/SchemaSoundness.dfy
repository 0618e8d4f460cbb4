/**
 * When the answers of the walk in scripts/gen-config-catalog.ts say what the
 * declared members say. The walk reads property signatures by their written
 * name, skips every other member and ignores type parameters, so the answers
 * are right where a written name is the declared one, no other member covers a
 * name and no type parameter shares its name with a declaration.
 */
module SchemaSoundness {
  import opened Prelude
  import opened SchemaPath
  import opened SchemaMeaning

  // ---- Worlds the walk reads correctly ----

  ghost predicate DistinctTexts(members: seq<TypeElement>) {
    forall i, j | 0 <= i < j < |members| && members[i].Property? && members[j].Property? :: members[i].text != members[j].text
  }

  /** A property written as it is named, or a member that covers no name. */
  ghost predicate PlainElement(m: TypeElement) {
    match m
    case Property(text, name, declared) => name == Some(text) && (declared.Some? ==> PlainNode(declared.value))
    case OtherElement(covers, _) => covers == NoName
  }

  ghost predicate PlainMembers(members: seq<TypeElement>) {
    DistinctTexts(members) && forall m | m in members :: PlainElement(m)
  }

  ghost predicate PlainNode(node: Node) {
    match node
    case TypeLiteral(members) => PlainMembers(members)
    case Parenthesized(inner) => PlainNode(inner)
    case TypeOperator(operator, inner) => operator != Keyof && PlainNode(inner)
    case Intersection(parts) => forall part | part in parts :: PlainNode(part)
    case Union(parts) => forall part | part in parts :: PlainNode(part)
    case ArrayType(element) => PlainNode(element)
    case IndexedAccess(owner, _) => PlainNode(owner)
    case TypeReference(head, qualified, args) =>
      (head in PASSTHROUGH_WRAPPERS + ARRAYS ==> !qualified) && forall arg | arg in args :: PlainNode(arg)
    case OtherType => true
  }

  ghost predicate PlainDecl(decl: Decl) {
    match decl
    case Alias(_, body) => PlainNode(body)
    case Interface(_, members, _) => PlainMembers(members)
    case Enum => true
  }

  /** No name of a type parameter is declared or imported by the file or taken by the walk for a global one. */
  ghost predicate PlainParams(w: World, file: string, params: seq<string>) {
    forall name | name in params :: (file, name) !in w.names && name !in PASSTHROUGH_WRAPPERS + ARRAYS
  }

  ghost predicate PlainAt(w: World, d: DeclId)
    requires d in w.decls
  {
    PlainDecl(w.decls[d]) && PlainParams(w, d.file, ParamsOf(w.decls[d]))
  }

  /**
   * Declarations are plain and not merged, no type parameter shares a name with a declaration of its
   * file, and no file declares or imports a name the walk takes for a global one.
   */
  ghost predicate PlainWorld(w: World) {
    && (forall d | d in w.decls :: PlainAt(w, d))
    && (forall d | d in w.merged :: w.merged[d] == [])
    && (forall k | k in w.names :: k.1 !in PASSTHROUGH_WRAPPERS + ARRAYS)
  }

  /** No declaration takes type parameters. */
  ghost predicate WithoutParams(w: World) {
    forall d | d in w.decls :: ParamsOf(w.decls[d]) == []
  }

  // ---- There, the text tells the members ----

  /** The property the walk picks is the one member that covers the name. */
  lemma PickedCovers(members: seq<TypeElement>, name: string)
    requires PlainMembers(members)
    ensures match PropertyNamed(members, name)
            case None => !MaybeCovered(members, name) && !NamedIn(members, name)
            case Some(p) => Covers(p, name) && NamedIn(members, name) && forall m | m in members && MayCover(m, name) :: m == p
  {
    forall m | m in members && MayCover(m, name) ensures m.Property? && m.text == name {
      assert PlainElement(m);
    }
    var picked := PropertyNamed(members, name);
    if picked.Some? {
      assert PlainElement(picked.value);
      forall m | m in members && MayCover(m, name) ensures m == picked.value {
        var i :| 0 <= i < |members| && members[i] == m;
        var j :| 0 <= j < |members| && members[j] == picked.value;
      }
    }
  }

  /** What the text tells of a node holds, and without type parameters it tells everything. */
  ghost predicate Told(w: World, n: nat, scope: Scope, node: Node, steps: seq<Step>) {
    && (ListedNode(w, n, scope.file, node, steps) ==> PresentNode(w, n, scope, node, steps))
    && (UnlistedNode(w, n, scope.file, node, steps) ==> AbsentNode(w, n, scope, node, steps))
    && (WithoutParams(w) && scope.params == [] ==>
          && (PresentNode(w, n, scope, node, steps) ==> ListedNode(w, n, scope.file, node, steps))
          && (AbsentNode(w, n, scope, node, steps) ==> UnlistedNode(w, n, scope.file, node, steps)))
  }

  ghost predicate ToldBase(w: World, n: nat, scope: Scope, b: Base, steps: seq<Step>) {
    && (ListedBase(w, n, scope.file, b, steps) ==> PresentBase(w, n, scope, b, steps))
    && (UnlistedBase(w, n, scope.file, b, steps) ==> AbsentBase(w, n, scope, b, steps))
    && (WithoutParams(w) && scope.params == [] ==>
          && (PresentBase(w, n, scope, b, steps) ==> ListedBase(w, n, scope.file, b, steps))
          && (AbsentBase(w, n, scope, b, steps) ==> UnlistedBase(w, n, scope.file, b, steps)))
  }

  ghost predicate ToldMembers(w: World, n: nat, scope: Scope, members: seq<TypeElement>, steps: seq<Step>)
    requires steps != [] && steps[0].Member?
  {
    var p := PropertyNamed(members, steps[0].name);
    var listed, unlisted := p.Some? && ListedProperty(w, n, scope.file, p.value, steps), p.Some? ==> UnlistedProperty(w, n, scope.file, p.value, steps);
    && (listed ==> PresentMembers(w, n, scope, members, steps))
    && (unlisted ==> AbsentMembers(w, n, scope, members, steps))
    && (WithoutParams(w) && scope.params == [] ==>
          && (PresentMembers(w, n, scope, members, steps) ==> listed)
          && (AbsentMembers(w, n, scope, members, steps) ==> unlisted))
  }

  lemma MembersAgree(w: World, n: nat, scope: Scope, members: seq<TypeElement>, steps: seq<Step>)
    requires PlainMembers(members) && steps != [] && steps[0].Member?
    requires forall m | m in members && m.Property? && m.declared.Some? && |steps| > 1 ::
               Told(w, n, scope, m.declared.value, steps[1..])
    ensures ToldMembers(w, n, scope, members, steps)
  {
    PickedCovers(members, steps[0].name);
    var picked := PropertyNamed(members, steps[0].name);
    if picked.Some? {
      var p := picked.value;
      assert Covers(p, steps[0].name) && MayCover(p, steps[0].name);
      assert PresentMembers(w, n, scope, members, steps) <==> PresentMember(w, n, scope, p, steps);
      assert AbsentMembers(w, n, scope, members, steps) <==> AbsentMember(w, n, scope, p, steps);
    } else {
      assert !Covered(members, steps[0].name) by {
        if m :| m in members && Covers(m, steps[0].name) { assert MayCover(m, steps[0].name); }
      }
    }
  }

  lemma UnmergedMembers(w: World, d: DeclId)
    requires PlainWorld(w) && d in w.decls && w.decls[d].Interface?
    ensures AllMembers(w, d) == w.decls[d].members && AllBases(w, d) == w.decls[d].bases
  {
  }

  lemma {:induction false} TextTellsDecl(w: World, n: nat, d: DeclId, actuals: seq<Closure>, steps: seq<Step>)
    requires PlainWorld(w)
    ensures ListedDecl(w, n, d, steps) ==> PresentDecl(w, n, d, actuals, steps)
    ensures UnlistedDecl(w, n, d, steps) ==> AbsentDecl(w, n, d, actuals, steps)
    ensures WithoutParams(w) && PresentDecl(w, n, d, actuals, steps) ==> ListedDecl(w, n, d, steps)
    ensures WithoutParams(w) && AbsentDecl(w, n, d, actuals, steps) ==> UnlistedDecl(w, n, d, steps)
    decreases n, 0
  {
    if n > 0 && steps != [] && d in w.decls {
      assert PlainAt(w, d);
      var scope := Inside(w, d, actuals);
      match w.decls[d]
      case Alias(_, body) => TextTellsNode(w, n - 1, scope, body, steps);
      case Interface(_, members, bases) =>
        UnmergedMembers(w, d);
        if steps[0].Member? {
          TextTellsMembers(w, n - 1, scope, members, steps);
          TextTellsBases(w, n - 1, scope, bases, steps);
          PickedCovers(members, steps[0].name);
        }
      case Enum =>
    }
  }

  lemma {:induction false} TextTellsMembers(w: World, n: nat, scope: Scope, members: seq<TypeElement>, steps: seq<Step>)
    requires PlainWorld(w) && PlainParams(w, scope.file, scope.params) && PlainMembers(members)
    requires steps != [] && steps[0].Member?
    ensures ToldMembers(w, n, scope, members, steps)
    decreases n, 1
  {
    forall m | m in members && m.Property? && m.declared.Some? && |steps| > 1
      ensures Told(w, n, scope, m.declared.value, steps[1..])
    {
      assert PlainElement(m);
      TextTellsNode(w, n, scope, m.declared.value, steps[1..]);
    }
    MembersAgree(w, n, scope, members, steps);
  }

  lemma {:induction false} TextTellsBases(w: World, n: nat, scope: Scope, bases: seq<Base>, steps: seq<Step>)
    requires PlainWorld(w) && PlainParams(w, scope.file, scope.params)
    ensures forall b | b in bases :: ToldBase(w, n, scope, b, steps)
    decreases n, 1
  {
    forall b | b in bases ensures ToldBase(w, n, scope, b, steps) {
      if b.NamedBase? && Resolve(w, scope.file, b.name).Some? {
        TextTellsDecl(w, n, Resolve(w, scope.file, b.name).value, Close(b.args, scope), steps);
      }
    }
  }

  lemma {:induction false} TextTellsParts(w: World, n: nat, scope: Scope, parts: seq<Node>, steps: seq<Step>)
    requires PlainWorld(w) && PlainParams(w, scope.file, scope.params) && forall part | part in parts :: PlainNode(part)
    ensures forall part | part in parts :: Told(w, n, scope, part, steps)
    decreases n, 1
  {
    forall part | part in parts ensures Told(w, n, scope, part, steps) {
      TextTellsNode(w, n, scope, part, steps);
    }
  }

  lemma {:induction false} TextTellsNode(w: World, n: nat, scope: Scope, node: Node, steps: seq<Step>)
    requires PlainWorld(w) && PlainParams(w, scope.file, scope.params) && PlainNode(node)
    ensures Told(w, n, scope, node, steps)
    decreases n, 0
  {
    if n > 0 && steps != [] {
      match node
      case TypeLiteral(members) =>
        if steps[0].Member? { TextTellsMembers(w, n - 1, scope, members, steps); }
      case Parenthesized(inner) => TextTellsNode(w, n - 1, scope, inner, steps);
      case TypeOperator(_, inner) => TextTellsNode(w, n - 1, scope, inner, steps);
      case Intersection(parts) => TextTellsParts(w, n - 1, scope, parts, steps);
      case Union(parts) => TextTellsParts(w, n - 1, scope, parts, steps);
      case ArrayType(element) => TextTellsNode(w, n - 1, scope, element, steps[1..]);
      case IndexedAccess(owner, index) =>
        if index.Some? { TextTellsNode(w, n - 1, scope, owner, [Member(index.value)] + steps); }
      case TypeReference(_, _, _) => TextTellsReference(w, n, scope, node, steps);
      case OtherType =>
    }
  }

  lemma {:induction false} TextTellsReference(w: World, n: nat, scope: Scope, node: Node, steps: seq<Step>)
    requires PlainWorld(w) && PlainParams(w, scope.file, scope.params) && PlainNode(node)
    requires node.TypeReference? && n > 0 && steps != []
    ensures Told(w, n, scope, node, steps)
    decreases n - 1, 2
  {
    var target := Resolve(w, scope.file, node.head);
    assert node.head in PASSTHROUGH_WRAPPERS + ARRAYS ==> (scope.file, node.head) !in w.names && node.head !in scope.params;
    if node.args != [] {
      TextTellsNode(w, n - 1, scope, node.args[0], steps);
      TextTellsNode(w, n - 1, scope, node.args[0], steps[1..]);
    }
    if target.Some? { TextTellsDecl(w, n - 1, target.value, Close(node.args, scope), steps); }
  }

  /** In a plain world found means present and missing means absent, whatever was seen and however deep the stack. */
  lemma AnswersAreSound(w: World, d: DeclId, steps: seq<Step>, depth: nat, seen: Seen)
    requires PlainWorld(w)
    ensures LookupDecl(w, depth, d, steps, seen).0 == Found ==> Present(w, d, steps)
    ensures LookupDecl(w, depth, d, steps, seen).0 == Missing ==> Absent(w, d, steps)
  {
    SoundDecl(w, depth, d, steps, seen);
    TextTellsDecl(w, depth, d, [], steps);
  }
}
