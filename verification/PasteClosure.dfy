/**
 * The paste worklist of scripts/gen-config-catalog.ts: the declarations a
 * config type pulls into its catalog fence, with one meaning per bare name.
 */
module PasteClosure {
  import opened Prelude

  /** A declaration's identity: its file and the line of its first character. */
  datatype DeclKey = DeclKey(file: string, line: nat)

  datatype TypeRef = TypeRef(imported: string, specifier: string)

  /** What a name means in a file, as `resolveTypeName` answers. */
  datatype Resolution = Unresolved | Import(ref: TypeRef) | Local(decl: DeclKey)

  /** A name to resolve, and the file that mentions it. */
  datatype Item = Item(name: string, from: string)

  /** The resolver's answers, and the type names each declaration mentions. */
  datatype Sources = Sources(meanings: Item -> Resolution, mentions: map<DeclKey, seq<string>>, globals: set<string>)

  datatype Violation =
    | Undeclared(item: Item)
    | ImportedConfigType(item: Item)
    | LocalElsewhere(item: Item, local: DeclKey)
    | TwoImports(item: Item, existing: TypeRef)
    | TwoDeclarations(item: Item, prior: DeclKey)
    | ImportElsewhere(item: Item, existing: TypeRef)

  /** The names a declaration mentions, without the global types. */
  function Mentioned(src: Sources, d: DeclKey): (names: seq<string>)
    ensures d in src.mentions ==> Picks(src.mentions[d], (n: string) => n !in src.globals, names)
    ensures d !in src.mentions ==> names == []
  {
    if d in src.mentions then
      FilterPicks(src.mentions[d], (n: string) => n !in src.globals);
      Filter(src.mentions[d], (n: string) => n !in src.globals)
    else []
  }

  /** The items a pasted declaration adds to the queue. */
  function Children(src: Sources, d: DeclKey): (r: seq<Item>)
    ensures |r| == |Mentioned(src, d)| && forall k | 0 <= k < |r| :: r[k] == Item(Mentioned(src, d)[k], d.file)
    ensures forall item | item in r :: d in src.mentions && item.name in src.mentions[d]
  {
    var names := Mentioned(src, d);
    seq(|names|, k requires 0 <= k < |names| => Item(names[k], d.file))
  }

  // ---- Reachability through package-local declarations ----

  ghost predicate Link(src: Sources, a: Item, b: Item) {
    src.meanings(a).Local? && b in Children(src, src.meanings(a).decl)
  }

  ghost predicate Trail(src: Sources, start: Item, p: seq<Item>) {
    p != [] && p[0] == start && forall i | 0 < i < |p| :: Link(src, p[i - 1], p[i])
  }

  ghost predicate Reachable(src: Sources, start: Item, item: Item) {
    exists p :: Trail(src, start, p) && p[|p| - 1] == item
  }

  lemma StartIsReachable(src: Sources, start: Item)
    ensures Reachable(src, start, start)
  {
    assert Trail(src, start, [start]);
  }

  lemma LinkIsReachable(src: Sources, start: Item, a: Item, b: Item)
    requires Reachable(src, start, a) && Link(src, a, b)
    ensures Reachable(src, start, b)
  {
    var p :| Trail(src, start, p) && p[|p| - 1] == a;
    var q := p + [b];
    forall i | 0 < i < |q| ensures Link(src, q[i - 1], q[i]) {
      if i < |p| { assert Link(src, p[i - 1], p[i]); }
    }
    assert Trail(src, start, q);
  }

  /** Closed under the links that leave it. */
  ghost predicate Closed(src: Sources, done: set<Item>) {
    forall a, b {:trigger Link(src, a, b)} | a in done && Link(src, a, b) :: b in done
  }

  lemma {:induction false} ClosedHoldsTrail(src: Sources, start: Item, done: set<Item>, p: seq<Item>)
    requires Closed(src, done) && start in done && Trail(src, start, p)
    ensures p[|p| - 1] in done
  {
    if |p| > 1 {
      ClosedHoldsTrail(src, start, done, p[..|p| - 1]);
      assert Link(src, p[|p| - 2], p[|p| - 1]);
    }
  }

  /** Every name of the closure has one meaning, and the config type itself is local. */
  ghost predicate Consistent(src: Sources, start: Item) {
    && src.meanings(start).Local?
    && (forall a {:trigger src.meanings(a)} | Reachable(src, start, a) :: src.meanings(a) != Unresolved)
    && (forall a: Item, b: Item {:trigger src.meanings(a), src.meanings(b)} |
          Reachable(src, start, a) && Reachable(src, start, b) && a.name == b.name :: src.meanings(a) == src.meanings(b))
  }

  // ---- What the worklist keeps ----

  /** Each table entry comes from a reachable item, and no name is in both tables. */
  ghost predicate Witnessed(src: Sources, start: Item, pasted: map<string, DeclKey>, refs: map<string, TypeRef>) {
    && pasted.Keys !! refs.Keys
    && (forall n | n in pasted :: Means(src, start, n, Local(pasted[n])))
    && (forall n | n in refs :: Means(src, start, n, Import(refs[n])))
  }

  /** Some reachable item of this name resolves this way. */
  ghost predicate Means(src: Sources, start: Item, name: string, meaning: Resolution) {
    exists a: Item {:trigger src.meanings(a)} :: a.name == name && Reachable(src, start, a) && src.meanings(a) == meaning
  }

  /** A reported violation is a real defect of the closure. */
  ghost predicate Truthful(src: Sources, start: Item, v: Violation) {
    && Reachable(src, start, v.item)
    && var meaning := src.meanings(v.item);
       match v
       case Undeclared(_) => meaning == Unresolved
       case ImportedConfigType(item) => meaning.Import? && item.name == start.name
       case LocalElsewhere(item, d) => meaning.Import? && Means(src, start, item.name, Local(d))
       case TwoImports(item, r) => meaning.Import? && meaning != Import(r) && Means(src, start, item.name, Import(r))
       case TwoDeclarations(item, d) => meaning.Local? && meaning != Local(d) && Means(src, start, item.name, Local(d))
       case ImportElsewhere(item, r) => meaning.Local? && Means(src, start, item.name, Import(r))
  }

  ghost predicate AllTruthful(src: Sources, start: Item, violations: seq<Violation>) {
    forall v | v in violations :: Truthful(src, start, v)
  }

  lemma Report(src: Sources, start: Item, violations: seq<Violation>, v: Violation)
    requires AllTruthful(src, start, violations) && Truthful(src, start, v)
    ensures AllTruthful(src, start, violations + [v])
  {
  }

  /** A processed item's resolution is the table entry under its name. */
  ghost predicate Recorded(
    src: Sources, start: Item, pasted: map<string, DeclKey>, refs: map<string, TypeRef>, a: Item)
  {
    match src.meanings(a)
    case Unresolved => false
    case Import(r) => a.name != start.name && a.name in refs && refs[a.name] == r
    case Local(d) => a.name in pasted && pasted[a.name] == d
  }

  ghost predicate AllRecorded(
    src: Sources, start: Item, pasted: map<string, DeclKey>, refs: map<string, TypeRef>, done: set<Item>)
  {
    forall a {:trigger Recorded(src, start, pasted, refs, a)} | a in done :: Recorded(src, start, pasted, refs, a)
  }

  /** The children of pasted declarations are processed or queued. */
  ghost predicate Covered(src: Sources, pasted: map<string, DeclKey>, done: set<Item>, queue: seq<Item>) {
    forall n, b {:trigger b in Children(src, pasted[n])} | n in pasted && b in Children(src, pasted[n]) :: b in done || b in queue
  }

  /** Two reachable items of one name that resolve differently. */
  lemma Clash(src: Sources, start: Item, a: Item, b: Item)
    requires Reachable(src, start, a) && Reachable(src, start, b) && a.name == b.name && src.meanings(a) != src.meanings(b)
    ensures !Consistent(src, start)
  {
  }

  lemma PastedClash(src: Sources, start: Item, pasted: map<string, DeclKey>, refs: map<string, TypeRef>, a: Item)
    requires Witnessed(src, start, pasted, refs) && Reachable(src, start, a) && a.name in pasted
    requires src.meanings(a) != Local(pasted[a.name])
    ensures !Consistent(src, start)
  {
    var b: Item :| b.name == a.name && Reachable(src, start, b) && src.meanings(b) == Local(pasted[a.name]);
    Clash(src, start, a, b);
  }

  lemma RefsClash(src: Sources, start: Item, pasted: map<string, DeclKey>, refs: map<string, TypeRef>, a: Item)
    requires Witnessed(src, start, pasted, refs) && Reachable(src, start, a) && a.name in refs
    requires src.meanings(a) != Import(refs[a.name])
    ensures !Consistent(src, start)
  {
    var b: Item :| b.name == a.name && Reachable(src, start, b) && src.meanings(b) == Import(refs[a.name]);
    Clash(src, start, a, b);
  }

  lemma ImportedStart(src: Sources, start: Item, a: Item)
    requires Reachable(src, start, a) && a.name == start.name && src.meanings(a).Import?
    ensures !Consistent(src, start)
  {
    StartIsReachable(src, start);
    if src.meanings(start).Local? { Clash(src, start, a, start); }
  }

  lemma UnresolvedItem(src: Sources, start: Item, a: Item)
    requires Reachable(src, start, a) && src.meanings(a) == Unresolved
    ensures !Consistent(src, start)
  {
  }

  /** With everything processed and recorded, the closure is consistent. */
  lemma AllProcessed(
    src: Sources, start: Item, pasted: map<string, DeclKey>, refs: map<string, TypeRef>, done: set<Item>)
    requires Witnessed(src, start, pasted, refs) && AllRecorded(src, start, pasted, refs, done)
    requires Covered(src, pasted, done, []) && start in done
    ensures Consistent(src, start)
    ensures forall a | Reachable(src, start, a) :: Recorded(src, start, pasted, refs, a)
  {
    forall a, b | a in done && Link(src, a, b) ensures b in done {
      assert Recorded(src, start, pasted, refs, a);
    }
    forall a | Reachable(src, start, a) ensures Recorded(src, start, pasted, refs, a) {
      var p :| Trail(src, start, p) && p[|p| - 1] == a;
      ClosedHoldsTrail(src, start, done, p);
      assert Recorded(src, start, pasted, refs, a);
    }
    StartIsReachable(src, start);
    assert Recorded(src, start, pasted, refs, start);
  }

  /** The pasted declarations: those some pasted name stands for. */
  ghost predicate PastesMatch(pasted: map<string, DeclKey>, pastes: seq<DeclKey>) {
    && (forall n | n in pasted :: pasted[n] in pastes)
    && (forall d | d in pastes :: exists n :: n in pasted && pasted[n] == d)
  }

  /** The declarations some reachable item stands for. */
  ghost predicate InClosure(src: Sources, start: Item, d: DeclKey) {
    exists a: Item {:trigger src.meanings(a)} :: Reachable(src, start, a) && src.meanings(a) == Local(d)
  }

  function Names(src: Sources, start: Item): set<string> {
    {start.name} + set d, n | d in src.mentions && n in src.mentions[d] :: n
  }

  lemma ChildrenAreNamed(src: Sources, start: Item, d: DeclKey)
    ensures forall b | b in Children(src, d) :: b.name in Names(src, start)
  {
  }

  // ---- The worklist ----

  ghost predicate Progress(
    src: Sources, start: Item, pastes: seq<DeclKey>, pasted: map<string, DeclKey>, refs: map<string, TypeRef>,
    violations: seq<Violation>, done: set<Item>, queue: seq<Item>)
  {
    && (start in done || start in queue)
    && (forall a | a in queue :: Reachable(src, start, a) && a.name in Names(src, start))
    && Witnessed(src, start, pasted, refs)
    && pasted.Keys <= Names(src, start)
    && PastesMatch(pasted, pastes)
    && Covered(src, pasted, done, queue)
    && (violations == [] ==> AllRecorded(src, start, pasted, refs, done))
    && (violations != [] ==> !Consistent(src, start))
  }

  lemma PastesStillMatch(pasted: map<string, DeclKey>, pastes: seq<DeclKey>, name: string, d: DeclKey)
    requires PastesMatch(pasted, pastes) && name !in pasted
    ensures PastesMatch(pasted[name := d], pastes + [d])
  {
    var more, longer := pasted[name := d], pastes + [d];
    assert longer[|pastes|] == d;
    forall x | x in longer ensures exists n :: n in more && more[n] == x {
      if x == d {
        assert more[name] == x;
      } else {
        var n :| n in pasted && pasted[n] == x;
        assert more[n] == x;
      }
    }
  }

  lemma FirstElement<T>(s: seq<T>)
    requires s != []
    ensures s == [s[0]] + s[1..]
  {
  }

  /** Paste a declaration under a name that has no meaning yet. */
  lemma PasteKeeps(
    src: Sources, start: Item, pastes: seq<DeclKey>, pasted: map<string, DeclKey>, refs: map<string, TypeRef>,
    violations: seq<Violation>, done: set<Item>, queue: seq<Item>)
    requires queue != [] && Progress(src, start, pastes, pasted, refs, violations, done, queue)
    requires src.meanings(queue[0]).Local? && queue[0].name !in pasted && queue[0].name !in refs
    ensures var d := src.meanings(queue[0]).decl;
            Progress(src, start, pastes + [d], pasted[queue[0].name := d], refs, violations, done + {queue[0]},
                     queue[1..] + Children(src, d))
  {
    var a := queue[0];
    var d := src.meanings(a).decl;
    var more, rest := pasted[a.name := d], queue[1..] + Children(src, d);
    FirstElement(queue);
    forall b | b in rest ensures Reachable(src, start, b) && b.name in Names(src, start) {
      if b in Children(src, d) {
        assert Link(src, a, b);
        LinkIsReachable(src, start, a, b);
        ChildrenAreNamed(src, start, d);
      }
    }
    forall x | x in done + {a} && violations == [] ensures Recorded(src, start, more, refs, x) {
      if x != a { assert Recorded(src, start, pasted, refs, x); }
    }
    forall n, b | n in more && b in Children(src, more[n]) ensures b in done + {a} || b in rest {
      if n != a.name { assert b in Children(src, pasted[n]); }
    }
    PastesStillMatch(pasted, pastes, a.name, d);
    assert Witnessed(src, start, more, refs);
  }

  /** Record an import under a name that has no other meaning. */
  lemma ImportKeeps(
    src: Sources, start: Item, pastes: seq<DeclKey>, pasted: map<string, DeclKey>, refs: map<string, TypeRef>,
    violations: seq<Violation>, done: set<Item>, queue: seq<Item>)
    requires queue != [] && Progress(src, start, pastes, pasted, refs, violations, done, queue)
    requires src.meanings(queue[0]).Import? && queue[0].name !in pasted && queue[0].name != start.name
    requires queue[0].name in refs ==> refs[queue[0].name] == src.meanings(queue[0]).ref
    ensures Progress(src, start, pastes, pasted, refs[queue[0].name := src.meanings(queue[0]).ref], violations,
                     done + {queue[0]}, queue[1..])
  {
    var a := queue[0];
    var more := refs[a.name := src.meanings(a).ref];
    assert queue == [a] + queue[1..];
    forall x | x in done + {a} && violations == [] ensures Recorded(src, start, pasted, more, x) {
      if x != a { assert Recorded(src, start, pasted, refs, x); }
    }
    assert Witnessed(src, start, pasted, more);
  }

  /** Drop an item that is already recorded, or report one that cannot be. */
  lemma DropKeeps(
    src: Sources, start: Item, pastes: seq<DeclKey>, pasted: map<string, DeclKey>, refs: map<string, TypeRef>,
    violations: seq<Violation>, more: seq<Violation>, done: set<Item>, queue: seq<Item>)
    requires queue != [] && Progress(src, start, pastes, pasted, refs, violations, done, queue)
    requires violations <= more
    requires more == [] ==> Recorded(src, start, pasted, refs, queue[0])
    requires more != [] ==> !Consistent(src, start)
    ensures Progress(src, start, pastes, pasted, refs, more, done + {queue[0]}, queue[1..])
  {
    var a := queue[0];
    assert queue == [a] + queue[1..];
    forall x | x in done + {a} && more == [] ensures Recorded(src, start, pasted, refs, x) {
      if x != a { assert Recorded(src, start, pasted, refs, x); }
    }
  }

  // ---- The order of the pastes, and what is reported ----

  /** The items in the order they are queued: the config type, then what each paste mentions. */
  function Enqueued(src: Sources, start: Item, pastes: seq<DeclKey>): (r: seq<Item>)
    ensures r != [] && r[0] == start
  {
    if pastes == [] then [start]
    else Enqueued(src, start, pastes[..|pastes| - 1]) + Children(src, pastes[|pastes| - 1])
  }

  lemma EnqueuedGrows(src: Sources, start: Item, pastes: seq<DeclKey>, d: DeclKey)
    ensures Enqueued(src, start, pastes + [d]) == Enqueued(src, start, pastes) + Children(src, d)
  {
    assert (pastes + [d])[..|pastes|] == pastes;
  }

  /** Paste i stands for the i-th name, at the first queued item of that name that is a local declaration. */
  ghost predicate FirstLocal(src: Sources, start: Item, pastes: seq<DeclKey>, i: nat, name: string, at: nat)
    requires i < |pastes|
  {
    var items := Enqueued(src, start, pastes);
    && at < |Enqueued(src, start, pastes[..i])| <= |items|
    && items[at].name == name && src.meanings(items[at]) == Local(pastes[i])
    && forall q | 0 <= q < at && items[q].name == name :: !src.meanings(items[q]).Local?
  }

  /**
   * The pastes in breadth-first order: one per name, each for the first local
   * mention of its name, which an earlier paste made, and in the order of those mentions.
   */
  ghost predicate InOrder(
    src: Sources, start: Item, pastes: seq<DeclKey>, pasted: map<string, DeclKey>, names: seq<string>, at: seq<nat>)
  {
    && |names| == |pastes| == |at|
    && OnePasteEach(pastes, pasted, names)
    && EachFirst(src, start, pastes, names, at)
    && Increasing(at)
  }

  ghost predicate Increasing(at: seq<nat>) {
    forall i, j | 0 <= i < j < |at| :: at[i] < at[j]
  }

  ghost predicate OnePasteEach(pastes: seq<DeclKey>, pasted: map<string, DeclKey>, names: seq<string>)
    requires |names| == |pastes|
  {
    && Distinct(names)
    && Elements(names) == pasted.Keys
    && (forall i | 0 <= i < |pastes| :: names[i] in pasted && pasted[names[i]] == pastes[i])
  }

  ghost predicate EachFirst(src: Sources, start: Item, pastes: seq<DeclKey>, names: seq<string>, at: seq<nat>)
    requires |names| == |pastes| == |at|
  {
    forall i: nat {:trigger FirstLocal(src, start, pastes, i, names[i], at[i])} | i < |pastes| ::
      FirstLocal(src, start, pastes, i, names[i], at[i])
  }

  ghost predicate BreadthFirst(src: Sources, start: Item, pastes: seq<DeclKey>, pasted: map<string, DeclKey>) {
    exists names, at {:trigger InOrder(src, start, pastes, pasted, names, at)} :: InOrder(src, start, pastes, pasted, names, at)
  }

  /** The violations name queued items, no queued one twice, in their order. */
  ghost predicate ReportedAt(src: Sources, start: Item, pastes: seq<DeclKey>, violations: seq<Violation>, at: seq<nat>) {
    var items := Enqueued(src, start, pastes);
    && |at| == |violations| && Increasing(at)
    && forall i: nat | i < |at| :: at[i] < |items| && violations[i].item == items[at[i]]
  }

  ghost predicate ReportedInOrder(src: Sources, start: Item, pastes: seq<DeclKey>, violations: seq<Violation>) {
    exists at {:trigger ReportedAt(src, start, pastes, violations, at)} :: ReportedAt(src, start, pastes, violations, at)
  }

  /** The item stands in a table under its name, or a violation names it. */
  ghost predicate Answered(
    src: Sources, start: Item, pasted: map<string, DeclKey>, refs: map<string, TypeRef>, violations: seq<Violation>, a: Item)
  {
    Recorded(src, start, pasted, refs, a) || exists v | v in violations :: v.item == a
  }

  /** The first p queued items are dealt with, the others wait. */
  ghost predicate Dealt(
    src: Sources, start: Item, pastes: seq<DeclKey>, pasted: map<string, DeclKey>, refs: map<string, TypeRef>,
    violations: seq<Violation>, queue: seq<Item>, p: nat)
  {
    var items := Enqueued(src, start, pastes);
    && p <= |items| && queue == items[p..]
    && forall q: nat {:trigger DealtAt(src, start, items, pasted, refs, violations, q)} | q < p ::
         DealtAt(src, start, items, pasted, refs, violations, q)
  }

  ghost predicate DealtAt(
    src: Sources, start: Item, items: seq<Item>, pasted: map<string, DeclKey>, refs: map<string, TypeRef>,
    violations: seq<Violation>, q: nat)
    requires q < |items|
  {
    && (src.meanings(items[q]).Local? ==> items[q].name in pasted || items[q].name in refs)
    && Answered(src, start, pasted, refs, violations, items[q])
  }

  ghost predicate Ordered(
    src: Sources, start: Item, pastes: seq<DeclKey>, pasted: map<string, DeclKey>, names: seq<string>, at: seq<nat>, p: nat)
  {
    InOrder(src, start, pastes, pasted, names, at) && Below(at, p)
  }

  ghost predicate Below(at: seq<nat>, p: nat) {
    forall i | 0 <= i < |at| :: at[i] < p
  }

  lemma OneMorePosition(at: seq<nat>, p: nat)
    requires Increasing(at) && Below(at, p)
    ensures Increasing(at + [p]) && Below(at + [p], p + 1)
  {
  }

  lemma LaterBound(at: seq<nat>, p: nat)
    requires Below(at, p)
    ensures Below(at, p + 1)
  {
  }

  lemma FirstLocalStays(src: Sources, start: Item, pastes: seq<DeclKey>, d: DeclKey, i: nat, name: string, at: nat)
    requires i < |pastes| && FirstLocal(src, start, pastes, i, name, at)
    ensures FirstLocal(src, start, pastes + [d], i, name, at)
  {
    EnqueuedGrows(src, start, pastes, d);
    assert (pastes + [d])[..i] == pastes[..i];
  }

  lemma FirstLocalHere(
    src: Sources, start: Item, pastes: seq<DeclKey>, pasted: map<string, DeclKey>, refs: map<string, TypeRef>,
    violations: seq<Violation>, queue: seq<Item>, p: nat)
    requires queue != [] && Dealt(src, start, pastes, pasted, refs, violations, queue, p)
    requires src.meanings(queue[0]).Local? && queue[0].name !in pasted && queue[0].name !in refs
    ensures FirstLocal(src, start, pastes + [src.meanings(queue[0]).decl], |pastes|, queue[0].name, p)
  {
    var d := src.meanings(queue[0]).decl;
    var items := Enqueued(src, start, pastes);
    EnqueuedGrows(src, start, pastes, d);
    assert (pastes + [d])[..|pastes|] == pastes;
    assert items[p] == queue[0];
    forall q | 0 <= q < p && items[q].name == queue[0].name ensures !src.meanings(items[q]).Local? {
      assert DealtAt(src, start, items, pasted, refs, violations, q);
    }
  }

  lemma OneMoreEach(pastes: seq<DeclKey>, pasted: map<string, DeclKey>, names: seq<string>, name: string, d: DeclKey)
    requires |names| == |pastes| && OnePasteEach(pastes, pasted, names) && name !in pasted
    ensures OnePasteEach(pastes + [d], pasted[name := d], names + [name])
  {
    assert name in names ==> name in Elements(names);
    AppendDistinct(names, name);
    assert Elements(names + [name]) == Elements(names) + {name};
    var more := names + [name];
    forall i | 0 <= i < |more| ensures more[i] in pasted[name := d] && pasted[name := d][more[i]] == (pastes + [d])[i] {
      if i < |names| { assert more[i] == names[i] && names[i] in names; }
    }
  }

  lemma OneMoreFirst(
    src: Sources, start: Item, pastes: seq<DeclKey>, names: seq<string>, at: seq<nat>, name: string, d: DeclKey, p: nat)
    requires |names| == |pastes| == |at| && EachFirst(src, start, pastes, names, at)
    requires FirstLocal(src, start, pastes + [d], |pastes|, name, p)
    ensures EachFirst(src, start, pastes + [d], names + [name], at + [p])
  {
    var moreNames, moreAt := names + [name], at + [p];
    forall i: nat | i < |pastes + [d]| ensures FirstLocal(src, start, pastes + [d], i, moreNames[i], moreAt[i]) {
      if i < |pastes| {
        assert moreNames[i] == names[i] && moreAt[i] == at[i];
        FirstLocalStays(src, start, pastes, d, i, names[i], at[i]);
      }
    }
  }

  /** Pasting the item at the head of the queue. */
  lemma PasteKeepsOrder(
    src: Sources, start: Item, pastes: seq<DeclKey>, pasted: map<string, DeclKey>, name: string, d: DeclKey, p: nat,
    names: seq<string>, at: seq<nat>)
    requires Ordered(src, start, pastes, pasted, names, at, p) && name !in pasted
    requires FirstLocal(src, start, pastes + [d], |pastes|, name, p)
    ensures Ordered(src, start, pastes + [d], pasted[name := d], names + [name], at + [p], p + 1)
  {
    OneMoreEach(pastes, pasted, names, name, d);
    OneMoreFirst(src, start, pastes, names, at, name, d, p);
    OneMorePosition(at, p);
    assert InOrder(src, start, pastes + [d], pasted[name := d], names + [name], at + [p]);
  }

  lemma NothingAdded<T>(s: seq<T>)
    ensures s == s + []
  {
  }

  ghost predicate Extends<T>(m: map<string, T>, more: map<string, T>) {
    forall n | n in m :: n in more && more[n] == m[n]
  }

  lemma EntryExtends<T(!new)>(m: map<string, T>, name: string, value: T)
    requires name in m ==> m[name] == value
    ensures Extends(m, m[name := value]) && Extends(m, m)
  {
  }

  lemma AnsweredStays(
    src: Sources, start: Item, pasted: map<string, DeclKey>, morePasted: map<string, DeclKey>, refs: map<string, TypeRef>,
    moreRefs: map<string, TypeRef>, violations: seq<Violation>, more: seq<Violation>, a: Item)
    requires Answered(src, start, pasted, refs, violations, a) && violations <= more
    requires Extends(pasted, morePasted) && Extends(refs, moreRefs)
    ensures Answered(src, start, morePasted, moreRefs, more, a)
  {
    if v :| v in violations && v.item == a { assert v in more; }
  }

  /** Dealing with the head of the queue, with some new items queued. */
  lemma HeadDeals(
    src: Sources, start: Item, pastes: seq<DeclKey>, morePastes: seq<DeclKey>, pasted: map<string, DeclKey>,
    morePasted: map<string, DeclKey>, refs: map<string, TypeRef>, moreRefs: map<string, TypeRef>,
    violations: seq<Violation>, more: seq<Violation>, queue: seq<Item>, added: seq<Item>, p: nat)
    requires queue != [] && Dealt(src, start, pastes, pasted, refs, violations, queue, p)
    requires Enqueued(src, start, morePastes) == Enqueued(src, start, pastes) + added && violations <= more
    requires Extends(pasted, morePasted) && Extends(refs, moreRefs)
    requires Answered(src, start, morePasted, moreRefs, more, queue[0])
    requires src.meanings(queue[0]).Local? ==> queue[0].name in morePasted || queue[0].name in moreRefs
    ensures Dealt(src, start, morePastes, morePasted, moreRefs, more, queue[1..] + added, p + 1)
  {
    var items := Enqueued(src, start, pastes);
    var all := items + added;
    assert all[p + 1..] == items[p..][1..] + added;
    forall q: nat | q < p + 1 ensures DealtAt(src, start, all, morePasted, moreRefs, more, q) {
      if q < p {
        assert DealtAt(src, start, items, pasted, refs, violations, q) && all[q] == items[q];
        AnsweredStays(src, start, pasted, morePasted, refs, moreRefs, violations, more, items[q]);
      } else {
        assert all[q] == queue[0];
      }
    }
  }

  lemma PasteAnswers(
    src: Sources, start: Item, pasted: map<string, DeclKey>, refs: map<string, TypeRef>, violations: seq<Violation>, a: Item)
    requires src.meanings(a).Local?
    ensures Answered(src, start, pasted[a.name := src.meanings(a).decl], refs, violations, a)
  {
  }

  lemma ImportAnswers(
    src: Sources, start: Item, pasted: map<string, DeclKey>, refs: map<string, TypeRef>, violations: seq<Violation>, a: Item)
    requires src.meanings(a).Import? && a.name != start.name
    ensures Answered(src, start, pasted, refs[a.name := src.meanings(a).ref], violations, a)
  {
  }

  lemma ReportAnswers(
    src: Sources, start: Item, pasted: map<string, DeclKey>, refs: map<string, TypeRef>, violations: seq<Violation>, v: Violation)
    ensures Answered(src, start, pasted, refs, violations + [v], v.item)
  {
    assert (violations + [v])[|violations|] == v;
  }

  // ---- The loop as a whole ----

  /** Everything the loop keeps. */
  ghost predicate Loop(
    src: Sources, start: Item, pastes: seq<DeclKey>, pasted: map<string, DeclKey>, refs: map<string, TypeRef>,
    violations: seq<Violation>, done: set<Item>, queue: seq<Item>, p: nat, names: seq<string>, at: seq<nat>, reports: seq<nat>)
  {
    && ReportedAt(src, start, pastes, violations, reports) && Below(reports, p)
    && Progress(src, start, pastes, pasted, refs, violations, done, queue)
    && AllTruthful(src, start, violations)
    && Dealt(src, start, pastes, pasted, refs, violations, queue, p)
    && Ordered(src, start, pastes, pasted, names, at, p)
    && start.name !in refs
  }

  lemma LoopStarts(src: Sources, start: Item)
    ensures Loop(src, start, [], map[], map[], [], {}, [start], 0, [], [], [])
  {
    StartIsReachable(src, start);
  }

  lemma LoopPastes(
    src: Sources, start: Item, pastes: seq<DeclKey>, pasted: map<string, DeclKey>, refs: map<string, TypeRef>,
    violations: seq<Violation>, done: set<Item>, queue: seq<Item>, p: nat, names: seq<string>, at: seq<nat>,
    reports: seq<nat>)
    requires queue != [] && Loop(src, start, pastes, pasted, refs, violations, done, queue, p, names, at, reports)
    requires src.meanings(queue[0]).Local? && queue[0].name !in pasted && queue[0].name !in refs
    ensures var a, d := queue[0], src.meanings(queue[0]).decl;
            Loop(src, start, pastes + [d], pasted[a.name := d], refs, violations, done + {a}, queue[1..] + Children(src, d),
                 p + 1, names + [a.name], at + [p], reports)
  {
    var a, d := queue[0], src.meanings(queue[0]).decl;
    LaterBound(reports, p);
    PasteKeeps(src, start, pastes, pasted, refs, violations, done, queue);
    FirstLocalHere(src, start, pastes, pasted, refs, violations, queue, p);
    PasteKeepsOrder(src, start, pastes, pasted, a.name, d, p, names, at);
    EnqueuedGrows(src, start, pastes, d);
    EntryExtends(pasted, a.name, d);
    assert Extends(refs, refs);
    PasteAnswers(src, start, pasted, refs, violations, a);
    HeadDeals(src, start, pastes, pastes + [d], pasted, pasted[a.name := d], refs, refs, violations, violations, queue, Children(src, d), p);
  }

  lemma LoopImports(
    src: Sources, start: Item, pastes: seq<DeclKey>, pasted: map<string, DeclKey>, refs: map<string, TypeRef>,
    violations: seq<Violation>, done: set<Item>, queue: seq<Item>, p: nat, names: seq<string>, at: seq<nat>,
    reports: seq<nat>)
    requires queue != [] && Loop(src, start, pastes, pasted, refs, violations, done, queue, p, names, at, reports)
    requires src.meanings(queue[0]).Import? && queue[0].name !in pasted && queue[0].name != start.name
    requires queue[0].name in refs ==> refs[queue[0].name] == src.meanings(queue[0]).ref
    ensures Loop(src, start, pastes, pasted, refs[queue[0].name := src.meanings(queue[0]).ref], violations, done + {queue[0]},
                 queue[1..], p + 1, names, at, reports)
  {
    LaterBound(reports, p);
    var more := refs[queue[0].name := src.meanings(queue[0]).ref];
    ImportKeeps(src, start, pastes, pasted, refs, violations, done, queue);
    NothingAdded(Enqueued(src, start, pastes));
    NothingAdded(queue[1..]);
    EntryExtends(refs, queue[0].name, src.meanings(queue[0]).ref);
    assert Extends(pasted, pasted);
    ImportAnswers(src, start, pasted, refs, violations, queue[0]);
    HeadDeals(src, start, pastes, pastes, pasted, pasted, refs, more, violations, violations, queue, [], p);
    LaterBound(at, p);
  }

  lemma OneMoreReport(
    src: Sources, start: Item, pastes: seq<DeclKey>, violations: seq<Violation>, v: Violation, reports: seq<nat>, p: nat)
    requires ReportedAt(src, start, pastes, violations, reports) && Below(reports, p)
    requires p < |Enqueued(src, start, pastes)| && Enqueued(src, start, pastes)[p] == v.item
    ensures ReportedAt(src, start, pastes, violations + [v], reports + [p]) && Below(reports + [p], p + 1)
  {
    OneMorePosition(reports, p);
  }

  lemma LoopDrops(
    src: Sources, start: Item, pastes: seq<DeclKey>, pasted: map<string, DeclKey>, refs: map<string, TypeRef>,
    violations: seq<Violation>, report: Option<Violation>, done: set<Item>, queue: seq<Item>, p: nat, names: seq<string>, at: seq<nat>,
    reports: seq<nat>)
    requires queue != [] && Loop(src, start, pastes, pasted, refs, violations, done, queue, p, names, at, reports)
    requires report.None? ==> Recorded(src, start, pasted, refs, queue[0])
    requires report.Some? ==> Truthful(src, start, report.value) && report.value.item == queue[0] && !Consistent(src, start)
    requires src.meanings(queue[0]).Local? ==> queue[0].name in pasted || queue[0].name in refs
    ensures var more := if report.Some? then violations + [report.value] else violations;
            Loop(src, start, pastes, pasted, refs, more, done + {queue[0]}, queue[1..], p + 1, names, at,
                 if report.Some? then reports + [p] else reports)
  {
    LaterBound(reports, p);
    var more := if report.Some? then violations + [report.value] else violations;
    if report.Some? {
      Report(src, start, violations, report.value);
      ReportAnswers(src, start, pasted, refs, violations, report.value);
      OneMoreReport(src, start, pastes, violations, report.value, reports, p);
    }
    DropKeeps(src, start, pastes, pasted, refs, violations, more, done, queue);
    NothingAdded(Enqueued(src, start, pastes));
    NothingAdded(queue[1..]);
    assert Extends(pasted, pasted) && Extends(refs, refs);
    HeadDeals(src, start, pastes, pastes, pasted, pasted, refs, refs, violations, more, queue, [], p);
    LaterBound(at, p);
  }

  lemma FirstPosition(at: seq<nat>, i: nat)
    requires Increasing(at) && i < |at|
    ensures i <= at[i]
    decreases i
  {
    if i > 0 { FirstPosition(at, i - 1); }
  }

  /** A local config type is pasted first. */
  lemma StartIsPastedFirst(
    src: Sources, start: Item, pastes: seq<DeclKey>, pasted: map<string, DeclKey>, names: seq<string>, at: seq<nat>)
    requires InOrder(src, start, pastes, pasted, names, at) && start.name in pasted && src.meanings(start).Local?
    ensures pastes != [] && src.meanings(start) == Local(pastes[0])
  {
    assert start.name in Elements(names);
    var i :| 0 <= i < |names| && names[i] == start.name;
    assert FirstLocal(src, start, pastes, i, names[i], at[i]);
    assert at[i] == 0;
    FirstPosition(at, i);
  }

  /**
   * Paste the package-local closure of the config type. No violation is
   * reported exactly when every name of the closure has one meaning; then the
   * pastes are exactly the reachable declarations and the references exactly
   * the reachable imports. The pastes come breadth first from the config type,
   * and every mentioned name is recorded or reported.
   */
  method PasteClosure(src: Sources, typeName: string, entry: string)
    returns (pastes: seq<DeclKey>, pasted: map<string, DeclKey>, refs: map<string, TypeRef>, violations: seq<Violation>)
    ensures violations == [] <==> Consistent(src, Item(typeName, entry))
    ensures PastesMatch(pasted, pastes) && Witnessed(src, Item(typeName, entry), pasted, refs)
    ensures forall d | d in pastes :: InClosure(src, Item(typeName, entry), d)
    ensures AllTruthful(src, Item(typeName, entry), violations)
    ensures violations == [] ==> forall d | InClosure(src, Item(typeName, entry), d) :: d in pastes
    ensures violations == [] ==>
              forall a | Reachable(src, Item(typeName, entry), a) :: Recorded(src, Item(typeName, entry), pasted, refs, a)
    ensures BreadthFirst(src, Item(typeName, entry), pastes, pasted)
    ensures ReportedInOrder(src, Item(typeName, entry), pastes, violations)
    ensures src.meanings(Item(typeName, entry)).Local? ==> pastes != [] && Local(pastes[0]) == src.meanings(Item(typeName, entry))
    ensures forall a | a in Enqueued(src, Item(typeName, entry), pastes) ::
              Answered(src, Item(typeName, entry), pasted, refs, violations, a)
  {
    ghost var start := Item(typeName, entry);
    ghost var done: set<Item> := {};
    ghost var p: nat, names: seq<string>, at: seq<nat>, reports: seq<nat> := 0, [], [], [];
    pastes, pasted, refs, violations := [], map[], map[], [];
    var queue := [Item(typeName, entry)];
    LoopStarts(src, start);
    while queue != []
      invariant Loop(src, start, pastes, pasted, refs, violations, done, queue, p, names, at, reports)
      decreases Names(src, start) - pasted.Keys, |queue|
    {
      var item := queue[0];
      assert item in queue;
      var resolved := src.meanings(item);
      var report: Option<Violation> := None;
      if resolved.Unresolved? {
        UnresolvedItem(src, start, item);
        report := Some(Undeclared(item));
      } else if resolved.Import? {
        if item.name == typeName {
          ImportedStart(src, start, item);
          report := Some(ImportedConfigType(item));
        } else if item.name in pasted {
          PastedClash(src, start, pasted, refs, item);
          report := Some(LocalElsewhere(item, pasted[item.name]));
        } else if item.name in refs && refs[item.name] != resolved.ref {
          RefsClash(src, start, pasted, refs, item);
          report := Some(TwoImports(item, refs[item.name]));
        } else {
          LoopImports(src, start, pastes, pasted, refs, violations, done, queue, p, names, at, reports);
          refs := refs[item.name := resolved.ref];
          done, queue, p := done + {item}, queue[1..], p + 1;
          continue;
        }
      } else if item.name in pasted {
        if pasted[item.name] != resolved.decl {
          PastedClash(src, start, pasted, refs, item);
          report := Some(TwoDeclarations(item, pasted[item.name]));
        }
      } else if item.name in refs {
        RefsClash(src, start, pasted, refs, item);
        report := Some(ImportElsewhere(item, refs[item.name]));
      } else {
        LoopPastes(src, start, pastes, pasted, refs, violations, done, queue, p, names, at, reports);
        assert item.name in Names(src, start) - pasted.Keys;
        pasted := pasted[item.name := resolved.decl];
        assert item.name !in Names(src, start) - pasted.Keys;
        pastes := pastes + [resolved.decl];
        done, queue, p, names, at := done + {item}, queue[1..] + Children(src, resolved.decl), p + 1, names + [item.name], at + [p];
        continue;
      }
      LoopDrops(src, start, pastes, pasted, refs, violations, report, done, queue, p, names, at, reports);
      if report.Some? {
        violations, reports := violations + [report.value], reports + [p];
      }
      done, queue, p := done + {item}, queue[1..], p + 1;
    }
    LoopEnds(src, start, pastes, pasted, refs, violations, done, p, names, at, reports);
    OrderEnds(src, start, pastes, pasted, refs, violations, p, names, at);
  }

  lemma LoopEnds(
    src: Sources, start: Item, pastes: seq<DeclKey>, pasted: map<string, DeclKey>, refs: map<string, TypeRef>,
    violations: seq<Violation>, done: set<Item>, p: nat, names: seq<string>, at: seq<nat>, reports: seq<nat>)
    requires Loop(src, start, pastes, pasted, refs, violations, done, [], p, names, at, reports)
    ensures ReportedInOrder(src, start, pastes, violations)
    ensures violations == [] <==> Consistent(src, start)
    ensures forall d | d in pastes :: InClosure(src, start, d)
    ensures violations == [] ==> forall d | InClosure(src, start, d) :: d in pastes
    ensures violations == [] ==> forall a | Reachable(src, start, a) :: Recorded(src, start, pasted, refs, a)
  {
    EveryPasteIsReachable(src, start, pastes, pasted, refs);
    if violations == [] {
      AllProcessed(src, start, pasted, refs, done);
      forall d | InClosure(src, start, d) ensures d in pastes {
        var a: Item :| Reachable(src, start, a) && src.meanings(a) == Local(d);
        assert Recorded(src, start, pasted, refs, a);
      }
    }
  }

  lemma OrderEnds(
    src: Sources, start: Item, pastes: seq<DeclKey>, pasted: map<string, DeclKey>, refs: map<string, TypeRef>,
    violations: seq<Violation>, p: nat, names: seq<string>, at: seq<nat>)
    requires Dealt(src, start, pastes, pasted, refs, violations, [], p) && Ordered(src, start, pastes, pasted, names, at, p)
    requires start.name !in refs
    ensures BreadthFirst(src, start, pastes, pasted)
    ensures src.meanings(start).Local? ==> pastes != [] && Local(pastes[0]) == src.meanings(start)
    ensures forall a | a in Enqueued(src, start, pastes) :: Answered(src, start, pasted, refs, violations, a)
  {
    var items := Enqueued(src, start, pastes);
    assert DealtAt(src, start, items, pasted, refs, violations, 0);
    forall a | a in items ensures Answered(src, start, pasted, refs, violations, a) {
      var q: nat :| q < |items| && items[q] == a;
      assert DealtAt(src, start, items, pasted, refs, violations, q);
    }
    if src.meanings(start).Local? { StartIsPastedFirst(src, start, pastes, pasted, names, at); }
  }

  lemma EveryPasteIsReachable(
    src: Sources, start: Item, pastes: seq<DeclKey>, pasted: map<string, DeclKey>, refs: map<string, TypeRef>)
    requires Witnessed(src, start, pasted, refs) && PastesMatch(pasted, pastes)
    ensures forall d | d in pastes :: InClosure(src, start, d)
  {
    forall d | d in pastes ensures InClosure(src, start, d) {
      var n :| n in pasted && pasted[n] == d;
      var a: Item :| a.name == n && Reachable(src, start, a) && src.meanings(a) == Local(d);
    }
  }
}
