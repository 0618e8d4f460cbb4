/**
 * What a declared type has at a key path, told from the members it declares,
 * and when the answers of the walk in scripts/gen-config-catalog.ts agree.
 */
module SchemaMeaning {
  import opened Prelude
  import opened SchemaPath

  // ---- The members of a declaration ----

  predicate Covers(m: TypeElement, name: string) {
    match m
    case Property(_, declaredName, _) => declaredName == Some(name)
    case OtherElement(covers, _) => covers == EveryName || covers == OneName(name)
  }

  predicate Covered(members: seq<TypeElement>, name: string) {
    exists m | m in members :: Covers(m, name)
  }

  /** A property with a computed name may turn out to have any name. */
  predicate MayCover(m: TypeElement, name: string) {
    Covers(m, name) || (m.Property? && m.name.None?)
  }

  predicate MaybeCovered(members: seq<TypeElement>, name: string) {
    exists m | m in members :: MayCover(m, name)
  }

  /** Some member declares this very name; an index signature does not. */
  predicate NamedIn(members: seq<TypeElement>, name: string) {
    exists m | m in members :: Covers(m, name) && !(m.OtherElement? && m.covers.EveryName?)
  }

  function MembersOf(decls: seq<Decl>): seq<TypeElement> {
    if decls == [] then []
    else (if decls[0].Interface? then decls[0].members else []) + MembersOf(decls[1..])
  }

  function BasesOf(decls: seq<Decl>): seq<Base> {
    if decls == [] then []
    else (if decls[0].Interface? then decls[0].bases else []) + BasesOf(decls[1..])
  }

  function Merged(w: World, d: DeclId): seq<Decl> {
    if d in w.merged then w.merged[d] else []
  }

  /** All members of an interface, merged declarations included. */
  function AllMembers(w: World, d: DeclId): seq<TypeElement>
    requires d in w.decls && w.decls[d].Interface?
  {
    w.decls[d].members + MembersOf(Merged(w, d))
  }

  function AllBases(w: World, d: DeclId): seq<Base>
    requires d in w.decls && w.decls[d].Interface?
  {
    w.decls[d].bases + BasesOf(Merged(w, d))
  }

  // ---- Type parameters ----

  /** Where a type is read: in a file, under the type parameters of a declaration and what they stand for. */
  datatype Scope = Scope(file: string, params: seq<string>, actuals: seq<Closure>)

  /** A type argument, with the scope it was written in. */
  datatype Closure = Closure(node: Node, scope: Scope)

  /** What a type parameter stands for; None without an argument. */
  function Actual(params: seq<string>, actuals: seq<Closure>, name: string): Option<Closure> {
    if params == [] || actuals == [] then None
    else if params[0] == name then Some(actuals[0])
    else Actual(params[1..], actuals[1..], name)
  }

  function Close(args: seq<Node>, scope: Scope): (r: seq<Closure>) {
    seq(|args|, i requires 0 <= i < |args| => Closure(args[i], scope))
  }

  function ParamsOf(decl: Decl): seq<string> {
    if decl.Enum? then [] else decl.params
  }

  /** The scope inside a declaration that is given these type arguments. */
  function Inside(w: World, d: DeclId, actuals: seq<Closure>): Scope
    requires d in w.decls
  {
    Scope(d.file, ParamsOf(w.decls[d]), actuals)
  }

  // ---- Presence and absence ----

  /** A derivation of height at most n that the type, given these arguments, has the path. */
  ghost predicate PresentDecl(w: World, n: nat, d: DeclId, actuals: seq<Closure>, steps: seq<Step>)
    decreases n, 0
  {
    n > 0 && (steps == [] || (d in w.decls &&
      var scope := Inside(w, d, actuals);
      match w.decls[d]
      case Alias(_, body) => PresentNode(w, n - 1, scope, body, steps)
      case Interface(_, _, _) =>
        steps[0].Member?
        && (PresentMembers(w, n - 1, scope, AllMembers(w, d), steps)
            || (!NamedIn(AllMembers(w, d), steps[0].name)
                && exists b | b in AllBases(w, d) :: PresentBase(w, n - 1, scope, b, steps)))
      case Enum => false))
  }

  ghost predicate PresentMembers(w: World, n: nat, scope: Scope, members: seq<TypeElement>, steps: seq<Step>)
    requires steps != [] && steps[0].Member?
    decreases n, 2
  {
    exists m | m in members :: Covers(m, steps[0].name) && PresentMember(w, n, scope, m, steps)
  }

  /** A covering member has the path if it ends here or goes on in the member's type. */
  ghost predicate PresentMember(w: World, n: nat, scope: Scope, m: TypeElement, steps: seq<Step>)
    requires steps != []
    decreases n, 1
  {
    |steps| == 1 || (m.declared.Some? && PresentNode(w, n, scope, m.declared.value, steps[1..]))
  }

  ghost predicate PresentBase(w: World, n: nat, scope: Scope, b: Base, steps: seq<Step>)
    decreases n, 1
  {
    b.NamedBase? && b.name !in scope.params && Resolve(w, scope.file, b.name).Some?
    && PresentDecl(w, n, Resolve(w, scope.file, b.name).value, Close(b.args, scope), steps)
  }

  /**
   * A name is a type parameter before it is a declaration or import of the file,
   * and that before it is a global one. `keyof` has none of its operand's members.
   */
  ghost predicate PresentNode(w: World, n: nat, scope: Scope, node: Node, steps: seq<Step>)
    decreases n, 0
  {
    n > 0 && (steps == [] ||
      match node
      case TypeLiteral(members) => steps[0].Member? && PresentMembers(w, n - 1, scope, members, steps)
      case Parenthesized(inner) => PresentNode(w, n - 1, scope, inner, steps)
      case TypeOperator(operator, inner) => operator != Keyof && PresentNode(w, n - 1, scope, inner, steps)
      case Intersection(parts) => exists part | part in parts :: PresentNode(w, n - 1, scope, part, steps)
      case Union(parts) => forall part | part in parts :: PresentNode(w, n - 1, scope, part, steps)
      case ArrayType(element) => steps[0].Element? && PresentNode(w, n - 1, scope, element, steps[1..])
      case IndexedAccess(owner, index) =>
        index.Some? && PresentNode(w, n - 1, scope, owner, [Member(index.value)] + steps)
      case TypeReference(head, qualified, args) =>
        !qualified &&
        (if head in scope.params then
           var actual := Actual(scope.params, scope.actuals, head);
           actual.Some? && PresentNode(w, n - 1, actual.value.scope, actual.value.node, steps)
         else if (scope.file, head) in w.names then
           Resolve(w, scope.file, head).Some?
           && PresentDecl(w, n - 1, Resolve(w, scope.file, head).value, Close(args, scope), steps)
         else if head in PASSTHROUGH_WRAPPERS && args != [] then PresentNode(w, n - 1, scope, args[0], steps)
         else head in ARRAYS && args != [] && steps[0].Element? && PresentNode(w, n - 1, scope, args[0], steps[1..]))
      case OtherType => false)
  }

  /** A derivation of height at most n that the type does not have the path: no member may cover it. */
  ghost predicate AbsentDecl(w: World, n: nat, d: DeclId, actuals: seq<Closure>, steps: seq<Step>)
    decreases n, 0
  {
    n > 0 && steps != [] && d in w.decls &&
    var scope := Inside(w, d, actuals);
    match w.decls[d]
    case Alias(_, body) => AbsentNode(w, n - 1, scope, body, steps)
    case Interface(_, _, _) =>
      steps[0].Member?
      && AbsentMembers(w, n - 1, scope, AllMembers(w, d), steps)
      && (NamedIn(AllMembers(w, d), steps[0].name)
          || forall b | b in AllBases(w, d) :: AbsentBase(w, n - 1, scope, b, steps))
    case Enum => false
  }

  ghost predicate AbsentMembers(w: World, n: nat, scope: Scope, members: seq<TypeElement>, steps: seq<Step>)
    requires steps != [] && steps[0].Member?
    decreases n, 2
  {
    forall m | m in members :: MayCover(m, steps[0].name) ==> AbsentMember(w, n, scope, m, steps)
  }

  ghost predicate AbsentMember(w: World, n: nat, scope: Scope, m: TypeElement, steps: seq<Step>)
    requires steps != []
    decreases n, 1
  {
    |steps| > 1 && m.declared.Some? && AbsentNode(w, n, scope, m.declared.value, steps[1..])
  }

  ghost predicate AbsentBase(w: World, n: nat, scope: Scope, b: Base, steps: seq<Step>)
    decreases n, 1
  {
    b.NamedBase? && b.name !in scope.params && Resolve(w, scope.file, b.name).Some?
    && AbsentDecl(w, n, Resolve(w, scope.file, b.name).value, Close(b.args, scope), steps)
  }

  /** The values of `keyof` are strings, numbers and symbols, so it lacks every name but those of their members. */
  ghost predicate AbsentNode(w: World, n: nat, scope: Scope, node: Node, steps: seq<Step>)
    decreases n, 0
  {
    n > 0 && steps != [] &&
    match node
    case TypeLiteral(members) => steps[0].Member? && AbsentMembers(w, n - 1, scope, members, steps)
    case Parenthesized(inner) => AbsentNode(w, n - 1, scope, inner, steps)
    case TypeOperator(operator, inner) =>
      if operator == Keyof then steps[0].Member? && steps[0].name !in w.keyNames
      else AbsentNode(w, n - 1, scope, inner, steps)
    case Intersection(parts) => forall part | part in parts :: AbsentNode(w, n - 1, scope, part, steps)
    case Union(parts) => parts != [] && forall part | part in parts :: AbsentNode(w, n - 1, scope, part, steps)
    case ArrayType(element) => steps[0].Element? && AbsentNode(w, n - 1, scope, element, steps[1..])
    case IndexedAccess(owner, index) =>
      index.Some? && AbsentNode(w, n - 1, scope, owner, [Member(index.value)] + steps)
    case TypeReference(head, qualified, args) =>
      !qualified &&
      (if head in scope.params then
         var actual := Actual(scope.params, scope.actuals, head);
         actual.Some? && AbsentNode(w, n - 1, actual.value.scope, actual.value.node, steps)
       else if (scope.file, head) in w.names then
         Resolve(w, scope.file, head).Some?
         && AbsentDecl(w, n - 1, Resolve(w, scope.file, head).value, Close(args, scope), steps)
       else if head in PASSTHROUGH_WRAPPERS && args != [] then AbsentNode(w, n - 1, scope, args[0], steps)
       else head in ARRAYS && args != [] && steps[0].Element? && AbsentNode(w, n - 1, scope, args[0], steps[1..]))
    case OtherType => false
  }

  /** The declared type, as a config type without arguments, has or lacks the path. */
  ghost predicate Present(w: World, d: DeclId, steps: seq<Step>) {
    exists n :: PresentDecl(w, n, d, [], steps)
  }

  ghost predicate Absent(w: World, d: DeclId, steps: seq<Step>) {
    exists n :: AbsentDecl(w, n, d, [], steps)
  }

  // ---- The two judgements exclude each other ----

  lemma {:induction false} ExcludeDecl(w: World, n: nat, m: nat, d: DeclId, actuals: seq<Closure>, steps: seq<Step>)
    ensures !(PresentDecl(w, n, d, actuals, steps) && AbsentDecl(w, m, d, actuals, steps))
    decreases n, 0
  {
    if n > 0 && m > 0 && steps != [] && d in w.decls {
      var scope := Inside(w, d, actuals);
      match w.decls[d]
      case Alias(_, body) => ExcludeNode(w, n - 1, m - 1, scope, body, steps);
      case Interface(_, _, _) =>
        if steps[0].Member? {
          ExcludeMembers(w, n - 1, m - 1, scope, AllMembers(w, d), steps);
          forall b | b in AllBases(w, d)
            ensures !(PresentBase(w, n - 1, scope, b, steps) && AbsentBase(w, m - 1, scope, b, steps))
          {
            if b.NamedBase? && Resolve(w, d.file, b.name).Some? {
              ExcludeDecl(w, n - 1, m - 1, Resolve(w, d.file, b.name).value, Close(b.args, scope), steps);
            }
          }
        }
      case Enum =>
    }
  }

  lemma {:induction false} ExcludeMembers(w: World, n: nat, m: nat, scope: Scope, members: seq<TypeElement>, steps: seq<Step>)
    requires steps != [] && steps[0].Member?
    ensures !(PresentMembers(w, n, scope, members, steps) && AbsentMembers(w, m, scope, members, steps))
    decreases n, 1
  {
    forall e | e in members ensures !(PresentMember(w, n, scope, e, steps) && AbsentMember(w, m, scope, e, steps)) {
      if |steps| > 1 && e.declared.Some? {
        ExcludeNode(w, n, m, scope, e.declared.value, steps[1..]);
      }
    }
  }

  lemma {:induction false} ExcludeNode(w: World, n: nat, m: nat, scope: Scope, node: Node, steps: seq<Step>)
    ensures !(PresentNode(w, n, scope, node, steps) && AbsentNode(w, m, scope, node, steps))
    decreases n, 0
  {
    if n > 0 && m > 0 && steps != [] {
      match node
      case TypeLiteral(members) =>
        if steps[0].Member? { ExcludeMembers(w, n - 1, m - 1, scope, members, steps); }
      case Parenthesized(inner) => ExcludeNode(w, n - 1, m - 1, scope, inner, steps);
      case TypeOperator(_, inner) => ExcludeNode(w, n - 1, m - 1, scope, inner, steps);
      case Intersection(parts) => ExcludeParts(w, n - 1, m - 1, scope, parts, steps);
      case Union(parts) =>
        ExcludeParts(w, n - 1, m - 1, scope, parts, steps);
        assert parts != [] ==> parts[0] in parts;
      case ArrayType(element) => ExcludeNode(w, n - 1, m - 1, scope, element, steps[1..]);
      case IndexedAccess(owner, index) =>
        if index.Some? { ExcludeNode(w, n - 1, m - 1, scope, owner, [Member(index.value)] + steps); }
      case TypeReference(_, _, _) => ExcludeReference(w, n, m, scope, node, steps);
      case OtherType =>
    }
  }

  lemma {:induction false} ExcludeReference(w: World, n: nat, m: nat, scope: Scope, node: Node, steps: seq<Step>)
    requires node.TypeReference? && n > 0 && m > 0 && steps != []
    ensures !(PresentNode(w, n, scope, node, steps) && AbsentNode(w, m, scope, node, steps))
    decreases n - 1, 2
  {
    var actual, target := Actual(scope.params, scope.actuals, node.head), Resolve(w, scope.file, node.head);
    if node.head in scope.params {
      if actual.Some? { ExcludeNode(w, n - 1, m - 1, actual.value.scope, actual.value.node, steps); }
    } else if (scope.file, node.head) in w.names {
      if target.Some? { ExcludeDecl(w, n - 1, m - 1, target.value, Close(node.args, scope), steps); }
    } else if node.args != [] {
      ExcludeNode(w, n - 1, m - 1, scope, node.args[0], steps);
      ExcludeNode(w, n - 1, m - 1, scope, node.args[0], steps[1..]);
    }
  }

  lemma {:induction false} ExcludeParts(w: World, n: nat, m: nat, scope: Scope, parts: seq<Node>, steps: seq<Step>)
    ensures forall part | part in parts :: !(PresentNode(w, n, scope, part, steps) && AbsentNode(w, m, scope, part, steps))
    decreases n, 1
  {
    forall part | part in parts ensures !(PresentNode(w, n, scope, part, steps) && AbsentNode(w, m, scope, part, steps)) {
      ExcludeNode(w, n, m, scope, part, steps);
    }
  }

  lemma NeverBoth(w: World, d: DeclId, steps: seq<Step>)
    ensures !(Present(w, d, steps) && Absent(w, d, steps))
  {
    if n, m :| PresentDecl(w, n, d, [], steps) && AbsentDecl(w, m, d, [], steps) {
      ExcludeDecl(w, n, m, d, [], steps);
    }
  }
}
