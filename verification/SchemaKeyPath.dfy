/** `parsePath` of scripts/gen-config-catalog.ts: a key path such as `agents[].id` as a list of steps, and back. */
module SchemaKeyPath {
  import opened Prelude
  import opened Text
  import opened SchemaPath

  /** One dotted segment: a member name and how many array hops follow it. */
  datatype Segment = Segment(name: string, arrays: nat)

  const HOP := "[]"

  predicate EndsInHop(s: string) {
    |s| >= 2 && s[|s| - 2..] == HOP
  }

  function ParseSegment(s: string): Segment {
    if EndsInHop(s) then
      var inner := ParseSegment(s[..|s| - 2]);
      Segment(inner.name, inner.arrays + 1)
    else Segment(s, 0)
  }

  function RenderSegment(g: Segment): string
    decreases g.arrays
  {
    if g.arrays == 0 then g.name else RenderSegment(Segment(g.name, g.arrays - 1)) + HOP
  }

  function Hops(n: nat): (steps: seq<Step>)
    ensures |steps| == n && forall i | 0 <= i < n :: steps[i] == Element
  {
    if n == 0 then [] else Hops(n - 1) + [Element]
  }

  function Flatten(groups: seq<Segment>): seq<Step> {
    if groups == [] then [] else [Member(groups[0].name)] + (Hops(groups[0].arrays) + Flatten(groups[1..]))
  }

  function Map<T, U>(s: seq<T>, f: T -> U): (r: seq<U>)
    ensures |r| == |s| && forall i | 0 <= i < |s| :: r[i] == f(s[i])
  {
    if s == [] then [] else [f(s[0])] + Map(s[1..], f)
  }

  function StepsOf(path: string): seq<Step> {
    Flatten(Map(Split(path, '.'), ParseSegment))
  }

  // ---- Back to text ----

  function LeadingHops(steps: seq<Step>): (n: nat)
    ensures n <= |steps| && forall i | 0 <= i < n :: steps[i] == Element
    ensures n < |steps| ==> steps[n].Member?
  {
    if steps == [] || steps[0].Member? then 0 else 1 + LeadingHops(steps[1..])
  }

  function Group(steps: seq<Step>): seq<Segment>
    requires steps != [] ==> steps[0].Member?
    decreases |steps|
  {
    if steps == [] then []
    else
      var n := LeadingHops(steps[1..]);
      assert steps[1..][n..] == steps[1 + n..];
      [Segment(steps[0].name, n)] + Group(steps[1 + n..])
  }

  function PathOf(steps: seq<Step>): string
    requires steps != [] && steps[0].Member?
  {
    JoinWith(Map(Group(steps), RenderSegment), '.')
  }

  /** Steps that a path can spell: a member first, and no name with a dot or with brackets at its end. */
  ghost predicate Spellable(steps: seq<Step>) {
    && steps != [] && steps[0].Member?
    && forall i | 0 <= i < |steps| && steps[i].Member? :: '.' !in steps[i].name && !EndsInHop(steps[i].name)
  }

  // ---- Segments ----

  lemma {:induction false} SegmentBack(s: string)
    ensures RenderSegment(ParseSegment(s)) == s
    ensures !EndsInHop(ParseSegment(s).name)
    ensures forall c | c in ParseSegment(s).name :: c in s
  {
    if EndsInHop(s) {
      SegmentBack(s[..|s| - 2]);
      assert s == s[..|s| - 2] + HOP;
    }
  }

  lemma {:induction false} SegmentForth(g: Segment)
    requires !EndsInHop(g.name)
    ensures ParseSegment(RenderSegment(g)) == g
    ensures '.' !in g.name ==> '.' !in RenderSegment(g)
    decreases g.arrays
  {
    if g.arrays > 0 {
      var less := Segment(g.name, g.arrays - 1);
      SegmentForth(less);
      var s := RenderSegment(g);
      assert s[|s| - 2..] == HOP && s[..|s| - 2] == RenderSegment(less);
    }
  }

  // ---- Groups ----

  lemma {:induction false} LeadingHopsIs(n: nat, rest: seq<Step>)
    requires rest != [] ==> rest[0].Member?
    ensures LeadingHops(Hops(n) + rest) == n
  {
    if n == 0 {
      assert [] + rest == rest;
    } else {
      HopsFromFront(n);
      assert ([Element] + Hops(n - 1) + rest)[1..] == Hops(n - 1) + rest;
      LeadingHopsIs(n - 1, rest);
    }
  }

  lemma HopsFromFront(n: nat)
    requires n > 0
    ensures Hops(n) == [Element] + Hops(n - 1)
  {
  }

  lemma GroupCons(name: string, n: nat, rest: seq<Step>)
    requires rest != [] ==> rest[0].Member?
    ensures Group([Member(name)] + (Hops(n) + rest)) == [Segment(name, n)] + Group(rest)
  {
    var tail := Hops(n) + rest;
    var steps := [Member(name)] + tail;
    LeadingHopsIs(n, rest);
    assert steps[1..] == tail && tail[n..] == rest && steps[1 + n..] == rest;
  }

  lemma HeadAndHops(steps: seq<Step>)
    requires steps != []
    ensures var n := LeadingHops(steps[1..]); steps == [steps[0]] + (Hops(n) + steps[1 + n..])
  {
    var n, tail := LeadingHops(steps[1..]), steps[1..];
    assert tail == tail[..n] + tail[n..];
    assert tail[..n] == Hops(n) && tail[n..] == steps[1 + n..];
  }

  lemma {:induction false} GroupFlatten(groups: seq<Segment>)
    ensures groups != [] ==> Flatten(groups) != [] && Flatten(groups)[0].Member?
    ensures groups == [] ==> Flatten(groups) == []
    ensures Group(Flatten(groups)) == groups
  {
    if groups != [] {
      GroupFlatten(groups[1..]);
      GroupCons(groups[0].name, groups[0].arrays, Flatten(groups[1..]));
    }
  }

  lemma {:induction false} FlattenGroup(steps: seq<Step>)
    requires steps != [] ==> steps[0].Member?
    ensures Flatten(Group(steps)) == steps
    decreases |steps|
  {
    if steps != [] {
      var n := LeadingHops(steps[1..]);
      assert steps[1..][n..] == steps[1 + n..];
      FlattenGroup(steps[1 + n..]);
      HeadAndHops(steps);
    }
  }

  lemma {:induction false} GroupNames(steps: seq<Step>, g: Segment)
    requires (steps != [] ==> steps[0].Member?) && g in Group(steps)
    ensures Member(g.name) in steps
    decreases |steps|
  {
    var n := LeadingHops(steps[1..]);
    assert steps[1..][n..] == steps[1 + n..];
    assert steps[0] == Member(steps[0].name);
    if g != Segment(steps[0].name, n) { GroupNames(steps[1 + n..], g); }
  }

  lemma {:induction false} FlattenNames(groups: seq<Segment>, step: Step)
    requires step in Flatten(groups) && step.Member?
    ensures exists g :: g in groups && g.name == step.name
  {
    if step.name != groups[0].name {
      assert step in Flatten(groups[1..]);
      FlattenNames(groups[1..], step);
    }
  }

  // ---- Both directions ----

  /** Parsing loses nothing: every path, well-formed or not, is spelled back exactly. */
  lemma PathComesBack(path: string)
    ensures Spellable(StepsOf(path))
    ensures PathOf(StepsOf(path)) == path
  {
    var pieces := Split(path, '.');
    var groups := Map(pieces, ParseSegment);
    GroupFlatten(groups);
    forall i | 0 <= i < |pieces|
      ensures RenderSegment(groups[i]) == pieces[i] && '.' !in groups[i].name && !EndsInHop(groups[i].name)
    {
      SegmentBack(pieces[i]);
    }
    assert Map(groups, RenderSegment) == pieces;
    JoinSplit(path, '.');
    forall step | step in StepsOf(path) && step.Member? ensures '.' !in step.name && !EndsInHop(step.name) {
      FlattenNames(groups, step);
    }
  }

  /** Every spellable list of steps is parsed back exactly. */
  lemma StepsComeBack(steps: seq<Step>)
    requires Spellable(steps)
    ensures StepsOf(PathOf(steps)) == steps
  {
    var groups := Group(steps);
    var pieces := Map(groups, RenderSegment);
    forall i | 0 <= i < |groups| ensures ParseSegment(pieces[i]) == groups[i] && '.' !in pieces[i] {
      GroupNames(steps, groups[i]);
      SegmentForth(groups[i]);
    }
    SplitJoin(pieces, '.');
    assert Map(pieces, ParseSegment) == groups;
    FlattenGroup(steps);
  }

  /** A path is read as the steps it was written for exactly when they are spellable: a key with a dot is split. */
  lemma StepsComeBackExactly(steps: seq<Step>)
    requires steps != [] && steps[0].Member?
    ensures StepsOf(PathOf(steps)) == steps <==> Spellable(steps)
  {
    if Spellable(steps) {
      StepsComeBack(steps);
    } else {
      PathComesBack(PathOf(steps));
    }
  }

  // ---- What a path spells, step by step ----

  /** Each further member follows a dot, and each array hop is a pair of brackets. */
  function Tail(steps: seq<Step>): string {
    if steps == [] then ""
    else
      match steps[0]
      case Member(name) => "." + name + Tail(steps[1..])
      case Element => "[]" + Tail(steps[1..])
  }

  function Spell(steps: seq<Step>): string
    requires steps != [] && steps[0].Member?
  {
    steps[0].name + Tail(steps[1..])
  }

  /** The name of a step could not be mistaken for two steps. */
  ghost predicate Unmistakable(name: string) {
    '.' !in name && !(|name| >= 2 && name[|name| - 2] == '[' && name[|name| - 1] == ']')
  }

  function Brackets(n: nat): string {
    if n == 0 then "" else "[]" + Brackets(n - 1)
  }

  lemma {:induction false} BracketsFromBack(n: nat)
    ensures Brackets(n + 1) == Brackets(n) + "[]"
  {
    if n > 0 {
      BracketsFromBack(n - 1);
      Join("[]", Brackets(n - 1), "[]");
    }
  }

  lemma {:induction false} RenderIs(g: Segment)
    ensures RenderSegment(g) == g.name + Brackets(g.arrays)
    decreases g.arrays
  {
    if g.arrays == 0 {
      assert g.name + "" == g.name;
    } else {
      RenderIs(Segment(g.name, g.arrays - 1));
      BracketsFromBack(g.arrays - 1);
      Join(g.name, Brackets(g.arrays - 1), "[]");
    }
  }

  lemma {:induction false} TailHops(n: nat, rest: seq<Step>)
    ensures Tail(Hops(n) + rest) == Brackets(n) + Tail(rest)
  {
    if n == 0 {
      assert [] + rest == rest;
    } else {
      HopsFromFront(n);
      var steps := Hops(n) + rest;
      assert steps[0] == Element && steps[1..] == Hops(n - 1) + rest;
      TailHops(n - 1, rest);
      Join("[]", Brackets(n - 1), Tail(rest));
    }
  }

  lemma {:induction false} SpellFlatten(groups: seq<Segment>)
    requires groups != []
    ensures Flatten(groups) != [] && Flatten(groups)[0].Member?
    ensures Spell(Flatten(groups)) == JoinWith(Map(groups, RenderSegment), '.')
  {
    var g, rest := groups[0], Flatten(groups[1..]);
    var steps := Flatten(groups);
    assert steps == [Member(g.name)] + (Hops(g.arrays) + rest) && steps[1..] == Hops(g.arrays) + rest;
    TailHops(g.arrays, rest);
    RenderIs(g);
    Join(g.name, Brackets(g.arrays), Tail(rest));
    if |groups| == 1 {
      assert Tail(rest) == "";
    } else {
      SpellFlatten(groups[1..]);
      assert Tail(rest) == "." + rest[0].name + Tail(rest[1..]);
      Join(".", rest[0].name, Tail(rest[1..]));
      Join(RenderSegment(g), ".", Spell(rest));
      assert Map(groups, RenderSegment)[1..] == Map(groups[1..], RenderSegment);
    }
  }

  lemma SpellIsPath(steps: seq<Step>)
    requires steps != [] && steps[0].Member?
    ensures Spell(steps) == PathOf(steps)
  {
    FlattenGroup(steps);
    SpellFlatten(Group(steps));
  }

  /** Member-first steps none of whose names could be mistaken for two steps. */
  ghost predicate Plainly(steps: seq<Step>) {
    steps != [] && steps[0].Member? && forall i | 0 <= i < |steps| && steps[i].Member? :: Unmistakable(steps[i].name)
  }

  /** The steps of a path spell it, and no name among them could be mistaken for two steps. */
  lemma StepsSpellPath(path: string)
    ensures Plainly(StepsOf(path)) && Spell(StepsOf(path)) == path
  {
    PathComesBack(path);
    SpellIsPath(StepsOf(path));
  }

  /** No other such steps spell the path. */
  lemma OnlyTheseSpell(path: string, steps: seq<Step>)
    requires Plainly(steps) && Spell(steps) == path
    ensures steps == StepsOf(path)
  {
    SpellIsPath(steps);
    StepsComeBack(steps);
  }

  // ---- The loops ----

  method CountHops(segment: string) returns (g: Segment)
    ensures g == ParseSegment(segment)
  {
    var name, arrays := segment, 0;
    while EndsInHop(name)
      invariant ParseSegment(segment) == Segment(ParseSegment(name).name, ParseSegment(name).arrays + arrays)
      decreases |name|
    {
      name := name[..|name| - 2];
      arrays := arrays + 1;
    }
    g := Segment(name, arrays);
  }

  lemma {:induction false} FlattenAppend(groups: seq<Segment>, g: Segment)
    ensures Flatten(groups + [g]) == Flatten(groups) + ([Member(g.name)] + Hops(g.arrays))
  {
    if groups == [] {
      assert [] + [g] == [g] && [g][1..] == [];
    } else {
      FlattenAppend(groups[1..], g);
      assert (groups + [g])[1..] == groups[1..] + [g];
      MoveOut([Member(groups[0].name)], Hops(groups[0].arrays), Flatten(groups[1..]), [Member(g.name)] + Hops(g.arrays));
    }
  }

  lemma MoveOut(a: seq<Step>, b: seq<Step>, c: seq<Step>, d: seq<Step>)
    ensures a + (b + (c + d)) == a + (b + c) + d
  {
  }

  lemma {:induction false} MapAppend<T, U>(s: seq<T>, x: T, f: T -> U)
    ensures Map(s + [x], f) == Map(s, f) + [f(x)]
  {
  }

  /** `parsePath`. */
  method ParsePath(path: string) returns (steps: seq<Step>)
    ensures steps == StepsOf(path)
  {
    var segments := Split(path, '.');
    steps := [];
    for i := 0 to |segments|
      invariant steps == Flatten(Map(segments[..i], ParseSegment))
    {
      TakeOneMore(segments, i);
      MapAppend(segments[..i], segments[i], ParseSegment);
      FlattenAppend(Map(segments[..i], ParseSegment), ParseSegment(segments[i]));
      var g := CountHops(segments[i]);
      steps := steps + ([Member(g.name)] + Hops(g.arrays));
    }
    assert segments[..|segments|] == segments;
  }
}
