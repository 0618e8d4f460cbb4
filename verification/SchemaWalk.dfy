/** `lookupPath` of scripts/gen-config-catalog.ts with the one `seen` set that all branches of a walk update. */
module SchemaWalk {
  import opened Prelude
  import opened SchemaPath
  import opened SchemaKeyPath
  import opened SchemaMeaning
  import opened SchemaSoundness
  import opened SchemaGrowth
  import opened SchemaGuard

  class PathWalk {
    const world: World
    var seen: Seen

    constructor (w: World)
      ensures world == w && seen == {}
    {
      world, seen := w, {};
    }

    method VisitDecl(depth: nat, d: DeclId, steps: seq<Step>) returns (r: Lookup)
      modifies this
      ensures (r, seen) == LookupDecl(world, depth, d, steps, old(seen))
      decreases depth, 0
    {
      if depth == 0 {
        return Overflow;
      }
      if steps == [] {
        return Found;
      }
      if d !in world.decls || world.decls[d].Enum? {
        return Unknown;
      }
      if (d, |steps|) in seen {
        return Unknown;
      }
      seen := seen + {(d, |steps|)};
      match world.decls[d]
      case Alias(_, body) =>
        r := VisitNode(depth - 1, d.file, body, steps);
      case Interface(_, members, bases) =>
        if steps[0].Element? {
          return Unknown;
        }
        var p := PropertyNamed(members, steps[0].name);
        if p.Some? {
          r := VisitProperty(depth - 1, d.file, p.value, steps);
        } else {
          var results := VisitBases(depth - 1, d.file, bases, steps);
          r := Combine(results);
        }
    }

    method VisitProperty(depth: nat, file: string, p: TypeElement, steps: seq<Step>) returns (r: Lookup)
      requires steps != []
      modifies this
      ensures (r, seen) == LookupProperty(world, depth, file, p, steps, old(seen))
      decreases depth, 1
    {
      if |steps| == 1 {
        return Found;
      }
      if p.Property? && p.declared.Some? {
        r := VisitNode(depth, file, p.declared.value, steps[1..]);
      } else {
        r := Unknown;
      }
    }

    method VisitBases(depth: nat, file: string, bases: seq<Base>, steps: seq<Step>) returns (results: seq<Lookup>)
      modifies this
      ensures (results, seen) == LookupBases(world, depth, file, bases, steps, old(seen))
      decreases depth, |bases| + 1
    {
      results := [];
      var i := 0;
      ghost var all := LookupBases(world, depth, file, bases, steps, seen);
      assert bases[0..] == bases && [] + all.0 == all.0;
      while i < |bases|
        invariant i <= |bases|
        invariant all.0 == results + LookupBases(world, depth, file, bases[i..], steps, seen).0
        invariant all.1 == LookupBases(world, depth, file, bases[i..], steps, seen).1
      {
        ghost var before, rest := results, bases[i + 1..];
        assert bases[i..][1..] == rest;
        var base := bases[i];
        var first := Unknown;
        if base.NamedBase? {
          var target := Resolve(world, file, base.name);
          if target.Some? {
            first := VisitDecl(depth, target.value, steps);
          }
        }
        results := results + [first];
        Shifted(before, first, LookupBases(world, depth, file, rest, steps, seen).0);
        i := i + 1;
      }
      assert bases[i..] == [] && results + [] == results;
    }

    method VisitAll(depth: nat, file: string, nodes: seq<Node>, steps: seq<Step>) returns (results: seq<Lookup>)
      modifies this
      ensures (results, seen) == LookupAll(world, depth, file, nodes, steps, old(seen))
      decreases depth, |nodes| + 1
    {
      results := [];
      var i := 0;
      ghost var all := LookupAll(world, depth, file, nodes, steps, seen);
      assert nodes[0..] == nodes && [] + all.0 == all.0;
      while i < |nodes|
        invariant i <= |nodes|
        invariant all.0 == results + LookupAll(world, depth, file, nodes[i..], steps, seen).0
        invariant all.1 == LookupAll(world, depth, file, nodes[i..], steps, seen).1
      {
        ghost var before, rest := results, nodes[i + 1..];
        assert nodes[i..][1..] == rest;
        var first := VisitNode(depth, file, nodes[i], steps);
        results := results + [first];
        Shifted(before, first, LookupAll(world, depth, file, rest, steps, seen).0);
        i := i + 1;
      }
      assert nodes[i..] == [] && results + [] == results;
    }

    method VisitNode(depth: nat, file: string, node: Node, steps: seq<Step>) returns (r: Lookup)
      modifies this
      ensures (r, seen) == LookupNode(world, depth, file, node, steps, old(seen))
      decreases depth, 0
    {
      if depth == 0 {
        return Overflow;
      }
      if steps == [] {
        return Found;
      }
      r := Unknown;
      match node
      case TypeLiteral(members) =>
        if steps[0].Member? {
          var p := PropertyNamed(members, steps[0].name);
          if p.Some? {
            r := VisitProperty(depth - 1, file, p.value, steps);
          } else {
            r := Missing;
          }
        }
      case Parenthesized(inner) =>
        r := VisitNode(depth - 1, file, inner, steps);
      case TypeOperator(_, inner) =>
        r := VisitNode(depth - 1, file, inner, steps);
      case Intersection(parts) =>
        var results := VisitAll(depth - 1, file, parts, steps);
        r := Combine(results);
      case Union(parts) =>
        var results := VisitAll(depth - 1, file, parts, steps);
        r := Agree(results);
      case ArrayType(element) =>
        if steps[0].Element? {
          r := VisitNode(depth - 1, file, element, steps[1..]);
        }
      case IndexedAccess(owner, index) =>
        if index.Some? {
          r := VisitNode(depth - 1, file, owner, [Member(index.value)] + steps);
        }
      case TypeReference(head, qualified, args) =>
        r := VisitReference(depth, file, node, steps);
      case OtherType =>
    }

    method VisitReference(depth: nat, file: string, node: Node, steps: seq<Step>) returns (r: Lookup)
      requires depth > 0 && steps != [] && node.TypeReference?
      modifies this
      ensures (r, seen) == LookupNode(world, depth, file, node, steps, old(seen))
      decreases depth - 1, 2
    {
      r := Unknown;
      if node.head in PASSTHROUGH_WRAPPERS && node.args != [] {
        r := VisitNode(depth - 1, file, node.args[0], steps);
      } else if node.head in ARRAYS && node.args != [] {
        if steps[0].Element? {
          r := VisitNode(depth - 1, file, node.args[0], steps[1..]);
        }
      } else if !node.qualified {
        var target := Resolve(world, file, node.head);
        if target.Some? {
          r := VisitDecl(depth - 1, target.value, steps);
        }
      }
    }
  }

  lemma Shifted(before: seq<Lookup>, first: Lookup, rest: seq<Lookup>)
    ensures before + ([first] + rest) == before + [first] + rest
  {
  }

  method CheckPath(w: World, depth: nat, d: DeclId, keyPath: string) returns (r: Lookup)
    ensures r == LookupDecl(w, depth, d, StepsOf(keyPath), {}).0
  {
    var steps := ParsePath(keyPath);
    var walk := new PathWalk(w);
    r := walk.VisitDecl(depth, d, steps);
  }

  /**
   * The check of one key path as a whole. Without a growing cycle it is decided
   * from some stack depth on. In a plain world found then means that the config
   * type has the path and missing that it does not. Without type parameters, and
   * where no declaration is reached twice at this path length, the converses hold
   * too: exactly the present paths are found and exactly the absent ones missing.
   */
  lemma CheckIsDecided(w: World, d: DeclId, keyPath: string) returns (bound: nat)
    requires NoGrowingCycle(w)
    ensures var steps := StepsOf(keyPath);
            var answer := LookupDecl(w, bound, d, steps, {}).0;
            && answer != Overflow
            && (forall depth: nat | depth >= bound :: LookupDecl(w, depth, d, steps, {}).0 == answer)
            && (PlainWorld(w) && answer == Found ==> Present(w, d, steps))
            && (PlainWorld(w) && answer == Missing ==> Absent(w, d, steps))
            && (PlainWorld(w) && WithoutParams(w) && ApartDecl(w, bound, d, |steps|) ==>
                  (answer == Found <==> Present(w, d, steps)) && (answer == Missing <==> Absent(w, d, steps)))
  {
    var steps := StepsOf(keyPath);
    bound := WalkTerminates(w, d, steps, {});
    if PlainWorld(w) {
      AnswersAreSound(w, d, steps, bound, {});
      if WithoutParams(w) && ApartDecl(w, bound, d, |steps|) { ApartIsAnswered(w, d, steps, bound); }
    }
  }
}
