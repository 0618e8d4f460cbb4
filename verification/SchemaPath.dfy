/**
 * The schema-path walk of scripts/gen-config-catalog.ts: does a declared type
 * have a member at a key path? The walk follows type references through a
 * possibly cyclic world of declarations and threads one `seen` set through all
 * of its branches.
 */
module SchemaPath {
  import opened Prelude

  /** One step of a key path: a named member, or an array-element hop. */
  datatype Step = Member(name: string) | Element

  datatype Node =
    | TypeLiteral(members: seq<TypeElement>)
    | Parenthesized(inner: Node)
    | Intersection(parts: seq<Node>)
    | Union(parts: seq<Node>)
    | ArrayType(element: Node)
    | TypeOperator(operator: Operator, inner: Node)
    | IndexedAccess(owner: Node, index: Option<string>)
    | TypeReference(head: string, qualified: bool, args: seq<Node>)
    | OtherType

  datatype Operator = Keyof | Unique | Readonly

  /**
   * A property signature, with its name as written and as declared: a quoted
   * name is written with its quotes, a computed one declares no known name.
   * Any other member covers the names it declares, with a type where it has one.
   */
  datatype TypeElement =
    | Property(text: string, name: Option<string>, declared: Option<Node>)
    | OtherElement(covers: Coverage, declared: Option<Node>)

  /** A call signature covers no name, a method or accessor one, a string index signature all. */
  datatype Coverage = NoName | OneName(name: string) | EveryName

  datatype Base = NamedBase(name: string, args: seq<Node>) | ComputedBase

  /** A declaration with the names of its type parameters, which the walk ignores as it does type arguments. */
  datatype Decl =
    | Interface(params: seq<string>, members: seq<TypeElement>, bases: seq<Base>)
    | Alias(params: seq<string>, body: Node)
    | Enum

  /** A declaration's identity: its file and its position there. */
  datatype DeclId = DeclId(file: string, pos: nat)

  /**
   * The declarations; the names a file declares or imports, each with its first
   * declaration, which for a name out of reach is not among the declarations;
   * what TypeScript merges into a declaration (interfaces of the same name and
   * the instance side of a class); and the members that all strings, numbers or
   * symbols have from the library.
   */
  datatype World = World(
    decls: map<DeclId, Decl>, names: map<(string, string), DeclId>, merged: map<DeclId, seq<Decl>>, keyNames: set<string>)

  /** `declForTypeName`; None is its `'unknown'`. */
  function Resolve(w: World, file: string, name: string): Option<DeclId> {
    if (file, name) in w.names && w.names[(file, name)] in w.decls then Some(w.names[(file, name)]) else None
  }

  /** The answer; `Overflow` is the engine's stack overflow, which aborts the walk. */
  datatype Lookup = Found | Missing | Unknown | Overflow

  type Seen = set<(DeclId, nat)>

  const PASSTHROUGH_WRAPPERS := {"Partial", "Required", "Readonly", "NonNullable"}
  const ARRAYS := {"Array", "ReadonlyArray"}

  /** Any found wins, else any unknown taints, else missing. */
  function Combine(results: seq<Lookup>): Lookup {
    if Overflow in results then Overflow
    else if Found in results then Found
    else if Unknown in results then Unknown
    else Missing
  }

  /** Presence on a union is only definite when every branch agrees. */
  function Agree(results: seq<Lookup>): Lookup {
    if Overflow in results then Overflow
    else if forall r | r in results :: r == Found then Found
    else if forall r | r in results :: r == Missing then Missing
    else Unknown
  }

  /** The first property signature whose name is written like this. */
  function PropertyNamed(members: seq<TypeElement>, name: string): Option<TypeElement> {
    Find(members, (m: TypeElement) => m.Property? && m.text == name)
  }

  // ---- The walk, with `depth` call frames left ----

  function LookupDecl(w: World, depth: nat, d: DeclId, steps: seq<Step>, seen: Seen): (Lookup, Seen)
    decreases depth, 0
  {
    if depth == 0 then (Overflow, seen)
    else if steps == [] then (Found, seen)
    else if d !in w.decls || w.decls[d].Enum? then (Unknown, seen)
    else if (d, |steps|) in seen then (Unknown, seen)
    else
      var visited := seen + {(d, |steps|)};
      match w.decls[d]
      case Alias(_, body) => LookupNode(w, depth - 1, d.file, body, steps, visited)
      case Interface(_, members, bases) =>
        if steps[0].Element? then (Unknown, visited)
        else
          var p := PropertyNamed(members, steps[0].name);
          if p.Some? then LookupProperty(w, depth - 1, d.file, p.value, steps, visited)
          else
            var (results, after) := LookupBases(w, depth - 1, d.file, bases, steps, visited);
            (Combine(results), after)
  }

  function LookupProperty(w: World, depth: nat, file: string, p: TypeElement, steps: seq<Step>, seen: Seen): (Lookup, Seen)
    requires steps != []
    decreases depth, 1
  {
    if |steps| == 1 then (Found, seen)
    else if p.Property? && p.declared.Some? then LookupNode(w, depth, file, p.declared.value, steps[1..], seen)
    else (Unknown, seen)
  }

  function LookupBases(w: World, depth: nat, file: string, bases: seq<Base>, steps: seq<Step>, seen: Seen): (r: (seq<Lookup>, Seen))
    ensures |r.0| == |bases|
    decreases depth, |bases| + 1
  {
    if bases == [] then ([], seen)
    else
      var target := if bases[0].NamedBase? then Resolve(w, file, bases[0].name) else None;
      var (first, between) := if target.None? then (Unknown, seen) else LookupDecl(w, depth, target.value, steps, seen);
      var (rest, after) := LookupBases(w, depth, file, bases[1..], steps, between);
      ([first] + rest, after)
  }

  function LookupAll(w: World, depth: nat, file: string, nodes: seq<Node>, steps: seq<Step>, seen: Seen): (r: (seq<Lookup>, Seen))
    ensures |r.0| == |nodes|
    decreases depth, |nodes| + 1
  {
    if nodes == [] then ([], seen)
    else
      var (first, between) := LookupNode(w, depth, file, nodes[0], steps, seen);
      var (rest, after) := LookupAll(w, depth, file, nodes[1..], steps, between);
      ([first] + rest, after)
  }

  function LookupNode(w: World, depth: nat, file: string, node: Node, steps: seq<Step>, seen: Seen): (Lookup, Seen)
    decreases depth, 0
  {
    if depth == 0 then (Overflow, seen)
    else if steps == [] then (Found, seen)
    else
      match node
      case TypeLiteral(members) =>
        if steps[0].Element? then (Unknown, seen)
        else
          var p := PropertyNamed(members, steps[0].name);
          if p.Some? then LookupProperty(w, depth - 1, file, p.value, steps, seen) else (Missing, seen)
      case Parenthesized(inner) => LookupNode(w, depth - 1, file, inner, steps, seen)
      case TypeOperator(_, inner) => LookupNode(w, depth - 1, file, inner, steps, seen)
      case Intersection(parts) =>
        var (results, after) := LookupAll(w, depth - 1, file, parts, steps, seen);
        (Combine(results), after)
      case Union(parts) =>
        var (results, after) := LookupAll(w, depth - 1, file, parts, steps, seen);
        (Agree(results), after)
      case ArrayType(element) =>
        if steps[0].Element? then LookupNode(w, depth - 1, file, element, steps[1..], seen) else (Unknown, seen)
      case IndexedAccess(owner, index) =>
        if index.Some? then LookupNode(w, depth - 1, file, owner, [Member(index.value)] + steps, seen) else (Unknown, seen)
      case TypeReference(head, qualified, args) =>
        if head in PASSTHROUGH_WRAPPERS && args != [] then
          LookupNode(w, depth - 1, file, args[0], steps, seen)
        else if head in ARRAYS && args != [] then
          if steps[0].Element? then LookupNode(w, depth - 1, file, args[0], steps[1..], seen) else (Unknown, seen)
        else if qualified then (Unknown, seen)
        else
          var target := Resolve(w, file, head);
          if target.None? then (Unknown, seen) else LookupDecl(w, depth - 1, target.value, steps, seen)
      case OtherType => (Unknown, seen)
  }

  // ---- What the walk can tell from the source text ----

  /** A derivation of height at most n that the written property signatures list the path. */
  ghost predicate ListedDecl(w: World, n: nat, d: DeclId, steps: seq<Step>)
    decreases n, 0
  {
    n > 0 && (steps == [] || (d in w.decls &&
      match w.decls[d]
      case Alias(_, body) => ListedNode(w, n - 1, d.file, body, steps)
      case Interface(_, members, bases) =>
        steps[0].Member? &&
        (var p := PropertyNamed(members, steps[0].name);
         if p.Some? then ListedProperty(w, n - 1, d.file, p.value, steps)
         else exists b | b in bases :: ListedBase(w, n - 1, d.file, b, steps))
      case Enum => false))
  }

  ghost predicate ListedProperty(w: World, n: nat, file: string, p: TypeElement, steps: seq<Step>)
    requires steps != []
    decreases n, 1
  {
    |steps| == 1 || (p.Property? && p.declared.Some? && ListedNode(w, n, file, p.declared.value, steps[1..]))
  }

  ghost predicate ListedBase(w: World, n: nat, file: string, b: Base, steps: seq<Step>)
    decreases n, 1
  {
    b.NamedBase? && Resolve(w, file, b.name).Some? && ListedDecl(w, n, Resolve(w, file, b.name).value, steps)
  }

  ghost predicate ListedNode(w: World, n: nat, file: string, node: Node, steps: seq<Step>)
    decreases n, 0
  {
    n > 0 && (steps == [] ||
      match node
      case TypeLiteral(members) =>
        steps[0].Member? && PropertyNamed(members, steps[0].name).Some?
        && ListedProperty(w, n - 1, file, PropertyNamed(members, steps[0].name).value, steps)
      case Parenthesized(inner) => ListedNode(w, n - 1, file, inner, steps)
      case TypeOperator(_, inner) => ListedNode(w, n - 1, file, inner, steps)
      case Intersection(parts) => exists part | part in parts :: ListedNode(w, n - 1, file, part, steps)
      case Union(parts) => forall part | part in parts :: ListedNode(w, n - 1, file, part, steps)
      case ArrayType(element) => steps[0].Element? && ListedNode(w, n - 1, file, element, steps[1..])
      case IndexedAccess(owner, index) =>
        index.Some? && ListedNode(w, n - 1, file, owner, [Member(index.value)] + steps)
      case TypeReference(head, qualified, args) =>
        if head in PASSTHROUGH_WRAPPERS && args != [] then ListedNode(w, n - 1, file, args[0], steps)
        else if head in ARRAYS && args != [] then steps[0].Element? && ListedNode(w, n - 1, file, args[0], steps[1..])
        else !qualified && Resolve(w, file, head).Some? && ListedDecl(w, n - 1, Resolve(w, file, head).value, steps)
      case OtherType => false)
  }

  /** A derivation of height at most n that the written property signatures do not list the path. */
  ghost predicate UnlistedDecl(w: World, n: nat, d: DeclId, steps: seq<Step>)
    decreases n, 0
  {
    n > 0 && steps != [] && d in w.decls &&
    match w.decls[d]
    case Alias(_, body) => UnlistedNode(w, n - 1, d.file, body, steps)
    case Interface(_, members, bases) =>
      steps[0].Member? &&
      (var p := PropertyNamed(members, steps[0].name);
       if p.Some? then UnlistedProperty(w, n - 1, d.file, p.value, steps)
       else forall b | b in bases :: UnlistedBase(w, n - 1, d.file, b, steps))
    case Enum => false
  }

  ghost predicate UnlistedProperty(w: World, n: nat, file: string, p: TypeElement, steps: seq<Step>)
    requires steps != []
    decreases n, 1
  {
    |steps| > 1 && p.Property? && p.declared.Some? && UnlistedNode(w, n, file, p.declared.value, steps[1..])
  }

  ghost predicate UnlistedBase(w: World, n: nat, file: string, b: Base, steps: seq<Step>)
    decreases n, 1
  {
    b.NamedBase? && Resolve(w, file, b.name).Some? && UnlistedDecl(w, n, Resolve(w, file, b.name).value, steps)
  }

  ghost predicate UnlistedNode(w: World, n: nat, file: string, node: Node, steps: seq<Step>)
    decreases n, 0
  {
    n > 0 && steps != [] &&
    match node
    case TypeLiteral(members) =>
      steps[0].Member? &&
      (var p := PropertyNamed(members, steps[0].name);
       p.Some? ==> UnlistedProperty(w, n - 1, file, p.value, steps))
    case Parenthesized(inner) => UnlistedNode(w, n - 1, file, inner, steps)
    case TypeOperator(_, inner) => UnlistedNode(w, n - 1, file, inner, steps)
    case Intersection(parts) => forall part | part in parts :: UnlistedNode(w, n - 1, file, part, steps)
    case Union(parts) => parts != [] && forall part | part in parts :: UnlistedNode(w, n - 1, file, part, steps)
    case ArrayType(element) => steps[0].Element? && UnlistedNode(w, n - 1, file, element, steps[1..])
    case IndexedAccess(owner, index) =>
      index.Some? && UnlistedNode(w, n - 1, file, owner, [Member(index.value)] + steps)
    case TypeReference(head, qualified, args) =>
      if head in PASSTHROUGH_WRAPPERS && args != [] then UnlistedNode(w, n - 1, file, args[0], steps)
      else if head in ARRAYS && args != [] then steps[0].Element? && UnlistedNode(w, n - 1, file, args[0], steps[1..])
      else !qualified && Resolve(w, file, head).Some? && UnlistedDecl(w, n - 1, Resolve(w, file, head).value, steps)
    case OtherType => false
  }

  // ---- Soundness, whatever has been seen before ----

  lemma {:induction false} SoundDecl(w: World, depth: nat, d: DeclId, steps: seq<Step>, seen: Seen)
    ensures LookupDecl(w, depth, d, steps, seen).0 == Found ==> ListedDecl(w, depth, d, steps)
    ensures LookupDecl(w, depth, d, steps, seen).0 == Missing ==> UnlistedDecl(w, depth, d, steps)
    decreases depth, 0
  {
    if depth > 0 && steps != [] && d in w.decls {
      var visited := seen + {(d, |steps|)};
      match w.decls[d]
      case Alias(_, body) => SoundNode(w, depth - 1, d.file, body, steps, visited);
      case Interface(_, members, bases) =>
        if steps[0].Member? {
          var p := PropertyNamed(members, steps[0].name);
          if p.Some? {
            SoundProperty(w, depth - 1, d.file, p.value, steps, visited);
          } else {
            SoundBases(w, depth - 1, d.file, bases, steps, visited);
            var results := LookupBases(w, depth - 1, d.file, bases, steps, visited).0;
            if i :| 0 <= i < |results| && results[i] == Found {
              assert bases[i] in bases;
            }
            forall b | b in bases ensures exists i :: 0 <= i < |bases| && bases[i] == b && results[i] in results {
              var i :| 0 <= i < |bases| && bases[i] == b;
              assert results[i] in results;
            }
          }
        }
      case Enum =>
    }
  }

  lemma {:induction false} SoundProperty(w: World, depth: nat, file: string, p: TypeElement, steps: seq<Step>, seen: Seen)
    requires steps != []
    ensures LookupProperty(w, depth, file, p, steps, seen).0 == Found ==> ListedProperty(w, depth, file, p, steps)
    ensures LookupProperty(w, depth, file, p, steps, seen).0 == Missing ==> UnlistedProperty(w, depth, file, p, steps)
    decreases depth, 1
  {
    if |steps| > 1 && p.Property? && p.declared.Some? {
      SoundNode(w, depth, file, p.declared.value, steps[1..], seen);
    }
  }

  lemma {:induction false} SoundBases(w: World, depth: nat, file: string, bases: seq<Base>, steps: seq<Step>, seen: Seen)
    ensures var results := LookupBases(w, depth, file, bases, steps, seen).0;
            forall i | 0 <= i < |bases| ::
              && (results[i] == Found ==> ListedBase(w, depth, file, bases[i], steps))
              && (results[i] == Missing ==> UnlistedBase(w, depth, file, bases[i], steps))
    decreases depth, |bases| + 1
  {
    if bases != [] {
      var target := if bases[0].NamedBase? then Resolve(w, file, bases[0].name) else None;
      if target.Some? { SoundDecl(w, depth, target.value, steps, seen); }
      var between := if target.None? then seen else LookupDecl(w, depth, target.value, steps, seen).1;
      SoundBases(w, depth, file, bases[1..], steps, between);
    }
  }

  lemma {:induction false} SoundAll(w: World, depth: nat, file: string, nodes: seq<Node>, steps: seq<Step>, seen: Seen)
    ensures var results := LookupAll(w, depth, file, nodes, steps, seen).0;
            forall i | 0 <= i < |nodes| ::
              && (results[i] == Found ==> ListedNode(w, depth, file, nodes[i], steps))
              && (results[i] == Missing ==> UnlistedNode(w, depth, file, nodes[i], steps))
    decreases depth, |nodes| + 1
  {
    if nodes != [] {
      SoundNode(w, depth, file, nodes[0], steps, seen);
      var between := LookupNode(w, depth, file, nodes[0], steps, seen).1;
      SoundAll(w, depth, file, nodes[1..], steps, between);
    }
  }

  lemma {:induction false} SoundNode(w: World, depth: nat, file: string, node: Node, steps: seq<Step>, seen: Seen)
    ensures LookupNode(w, depth, file, node, steps, seen).0 == Found ==> ListedNode(w, depth, file, node, steps)
    ensures LookupNode(w, depth, file, node, steps, seen).0 == Missing ==> UnlistedNode(w, depth, file, node, steps)
    decreases depth, 0
  {
    if depth > 0 && steps != [] {
      match node
      case TypeLiteral(members) =>
        if steps[0].Member? && PropertyNamed(members, steps[0].name).Some? {
          SoundProperty(w, depth - 1, file, PropertyNamed(members, steps[0].name).value, steps, seen);
        }
      case Parenthesized(inner) => SoundNode(w, depth - 1, file, inner, steps, seen);
      case TypeOperator(_, inner) => SoundNode(w, depth - 1, file, inner, steps, seen);
      case Intersection(parts) => SoundAll(w, depth - 1, file, parts, steps, seen); SoundParts(w, depth, file, node, steps, seen);
      case Union(parts) => SoundAll(w, depth - 1, file, parts, steps, seen); SoundParts(w, depth, file, node, steps, seen);
      case ArrayType(element) => SoundNode(w, depth - 1, file, element, steps[1..], seen);
      case IndexedAccess(owner, index) =>
        if index.Some? { SoundNode(w, depth - 1, file, owner, [Member(index.value)] + steps, seen); }
      case TypeReference(head, qualified, args) =>
        if args != [] {
          SoundNode(w, depth - 1, file, args[0], steps, seen);
          SoundNode(w, depth - 1, file, args[0], steps[1..], seen);
        }
        if Resolve(w, file, head).Some? { SoundDecl(w, depth - 1, Resolve(w, file, head).value, steps, seen); }
      case OtherType =>
    }
  }

  /** Combining sound branch answers is sound for an intersection and for a union. */
  lemma SoundParts(w: World, depth: nat, file: string, node: Node, steps: seq<Step>, seen: Seen)
    requires depth > 0 && steps != [] && (node.Intersection? || node.Union?)
    requires var results := LookupAll(w, depth - 1, file, node.parts, steps, seen).0;
             forall i | 0 <= i < |node.parts| ::
               && (results[i] == Found ==> ListedNode(w, depth - 1, file, node.parts[i], steps))
               && (results[i] == Missing ==> UnlistedNode(w, depth - 1, file, node.parts[i], steps))
    ensures LookupNode(w, depth, file, node, steps, seen).0 == Found ==> ListedNode(w, depth, file, node, steps)
    ensures LookupNode(w, depth, file, node, steps, seen).0 == Missing ==> UnlistedNode(w, depth, file, node, steps)
  {
    var results := LookupAll(w, depth - 1, file, node.parts, steps, seen).0;
    forall part | part in node.parts ensures exists i :: 0 <= i < |node.parts| && node.parts[i] == part && results[i] in results {
      var i :| 0 <= i < |node.parts| && node.parts[i] == part;
      assert results[i] in results;
    }
    if Found in results {
      var i :| 0 <= i < |results| && results[i] == Found;
      assert node.parts[i] in node.parts;
    }
    if node.parts != [] {
      assert results[0] in results;
    }
  }

  // ---- The two judgements exclude each other ----

  lemma {:induction false} DisjointDecl(w: World, n: nat, m: nat, d: DeclId, steps: seq<Step>)
    requires ListedDecl(w, n, d, steps) && UnlistedDecl(w, m, d, steps)
    ensures false
    decreases n, 0
  {
    match w.decls[d]
    case Alias(_, body) => DisjointNode(w, n - 1, m - 1, d.file, body, steps);
    case Interface(_, members, bases) =>
      var p := PropertyNamed(members, steps[0].name);
      if p.Some? {
        if |steps| > 1 {
          DisjointNode(w, n - 1, m - 1, d.file, p.value.declared.value, steps[1..]);
        }
      } else {
        var b :| b in bases && ListedBase(w, n - 1, d.file, b, steps);
        assert UnlistedBase(w, m - 1, d.file, b, steps);
        DisjointDecl(w, n - 1, m - 1, Resolve(w, d.file, b.name).value, steps);
      }
  }

  lemma {:induction false} DisjointNode(w: World, n: nat, m: nat, file: string, node: Node, steps: seq<Step>)
    requires ListedNode(w, n, file, node, steps) && UnlistedNode(w, m, file, node, steps)
    ensures false
    decreases n, 0
  {
    match node
    case TypeLiteral(members) =>
      if |steps| > 1 {
        var p := PropertyNamed(members, steps[0].name).value;
        DisjointNode(w, n - 1, m - 1, file, p.declared.value, steps[1..]);
      }
    case Parenthesized(inner) => DisjointNode(w, n - 1, m - 1, file, inner, steps);
    case TypeOperator(_, inner) => DisjointNode(w, n - 1, m - 1, file, inner, steps);
    case Intersection(parts) =>
      var part :| part in parts && ListedNode(w, n - 1, file, part, steps);
      DisjointNode(w, n - 1, m - 1, file, part, steps);
    case Union(parts) =>
      assert parts[0] in parts;
      DisjointNode(w, n - 1, m - 1, file, parts[0], steps);
    case ArrayType(element) => DisjointNode(w, n - 1, m - 1, file, element, steps[1..]);
    case IndexedAccess(owner, index) => DisjointNode(w, n - 1, m - 1, file, owner, [Member(index.value)] + steps);
    case TypeReference(head, qualified, args) =>
      if head in PASSTHROUGH_WRAPPERS && args != [] {
        DisjointNode(w, n - 1, m - 1, file, args[0], steps);
      } else if head in ARRAYS && args != [] {
        DisjointNode(w, n - 1, m - 1, file, args[0], steps[1..]);
      } else {
        DisjointDecl(w, n - 1, m - 1, Resolve(w, file, head).value, steps);
      }
    case OtherType =>
  }

  /** Listed or not, by a derivation of some height. */
  ghost predicate Listed(w: World, d: DeclId, steps: seq<Step>) {
    exists n :: ListedDecl(w, n, d, steps)
  }

  ghost predicate Unlisted(w: World, d: DeclId, steps: seq<Step>) {
    exists n :: UnlistedDecl(w, n, d, steps)
  }

  /**
   * Found means listed and missing means not listed, and no query is both, so
   * two walks never contradict each other whatever they had seen before and
   * however much stack they had.
   */
  lemma AnswersFollowText(w: World, d: DeclId, steps: seq<Step>, depth: nat, seen: Seen)
    ensures LookupDecl(w, depth, d, steps, seen).0 == Found ==> Listed(w, d, steps)
    ensures LookupDecl(w, depth, d, steps, seen).0 == Missing ==> Unlisted(w, d, steps)
    ensures !(Listed(w, d, steps) && Unlisted(w, d, steps))
  {
    SoundDecl(w, depth, d, steps, seen);
    if n, m :| ListedDecl(w, n, d, steps) && UnlistedDecl(w, m, d, steps) {
      DisjointDecl(w, n, m, d, steps);
    }
  }

  lemma AnswersNeverContradict(
    w: World, d: DeclId, steps: seq<Step>, depth: nat, seen: Seen, otherDepth: nat, otherSeen: Seen)
    requires LookupDecl(w, depth, d, steps, seen).0 == Found
    ensures LookupDecl(w, otherDepth, d, steps, otherSeen).0 != Missing
  {
    AnswersFollowText(w, d, steps, depth, seen);
    AnswersFollowText(w, d, steps, otherDepth, otherSeen);
  }
}
