/** When `latest` on the entry package can be trusted during an interrupted publication. */
module PublicationLatest {
  import opened Publication
  import opened PublicationRuns

  /** The bundle's own dist-tag is `latest` and the entry package is not published last. */
  predicate TagsLatestEarly(b: Bundle) {
    b.distTag == LATEST && exists i | 0 <= i < |b.packages| - 1 :: b.packages[i].name == RELEASE_ENTRY_PACKAGE
  }

  lemma SettledKeepsAllComplete(b: Bundle, i: nat, r: Registry)
    requires Loaded(b) && i < |b.packages| && AllComplete(b, r)
    ensures AllComplete(b, Settled(b, i, r))
  {
    forall j: nat | j < |b.packages| ensures CompleteAt(b, j, Settled(b, i, r)) {
      assert CompleteAt(b, j, r);
      SettledKeepsComplete(b, i, j, r);
    }
  }

  /** Settling a package points `latest` at the release only when that completes the bundle. */
  lemma SettlingLatest(b: Bundle, i: nat, r: Registry)
    requires Loaded(b) && !TagsLatestEarly(b) && i < |b.packages| && CompleteBelow(b, i, r)
    ensures LatestIsRelease(b, Settled(b, i, r)) ==> LatestIsRelease(b, r) || AllComplete(b, Settled(b, i, r))
  {
    var t := Settled(b, i, r);
    if LatestIsRelease(b, t) && !LatestIsRelease(b, r) {
      assert b.packages[i].name == RELEASE_ENTRY_PACKAGE && i == |b.packages| - 1;
      forall j: nat | j < |b.packages| ensures CompleteAt(b, j, t) {
        if j < i {
          assert CompleteAt(b, j, r);
          SettledKeepsComplete(b, i, j, r);
        } else {
          SettledIsComplete(b, i, r);
        }
      }
    }
  }

  lemma StepKeepsAllComplete(b: Bundle, origin: Registry, s: Process)
    requires Loaded(b) && Invariant(b, origin, s) && AllComplete(b, s.registry)
    ensures AllComplete(b, Step(b, s).registry)
  {
    match s.pc
    case PublishPackage(i) => SettledKeepsAllComplete(b, i, s.registry);
    case AddTag(i) =>
      AddTagSettles(b, i, s.registry);
      SettledKeepsAllComplete(b, i, s.registry);
    case AddLatest => StepKeeps(b, origin, s);
      if (RELEASE_ENTRY_PACKAGE, b.version) in s.registry.versions {
        PromotingKeeps(b, origin, s.registry);
      }
    case _ =>
  }

  lemma StepLatest(b: Bundle, origin: Registry, s: Process)
    requires Loaded(b) && !TagsLatestEarly(b) && Invariant(b, origin, s)
    ensures LatestIsRelease(b, Step(b, s).registry) ==> LatestIsRelease(b, s.registry) || AllComplete(b, Step(b, s).registry)
  {
    match s.pc
    case PublishPackage(i) => SettlingLatest(b, i, s.registry);
    case AddTag(i) =>
      AddTagSettles(b, i, s.registry);
      SettlingLatest(b, i, s.registry);
    case AddLatest => StepKeepsAllComplete(b, origin, s);
    case _ =>
  }

  /**
   * Over every run with crashes and restarts, unless `latest` already pointed
   * at the release it does so only once every package has the bundle's
   * integrity and dist-tag.
   */
  lemma {:induction false} LatestMeansComplete(b: Bundle, origin: Registry, events: seq<Event>)
    requires Loaded(b) && !TagsLatestEarly(b)
    ensures LatestIsRelease(b, After(b, origin, events).registry) ==>
              LatestIsRelease(b, origin) || AllComplete(b, After(b, origin, events).registry)
  {
    if events != [] {
      var before := events[..|events| - 1];
      LatestMeansComplete(b, origin, before);
      RunsKeepInvariant(b, origin, before);
      var s := After(b, origin, before);
      StepLatest(b, origin, s);
      if AllComplete(b, s.registry) { StepKeepsAllComplete(b, origin, s); }
    }
  }

  lemma AfterCommand(b: Bundle, r: Registry, events: seq<Event>)
    ensures After(b, r, events + [Command]) == Step(b, After(b, r, events))
  {
    assert (events + [Command])[..|events|] == events;
  }

  /** The versions in a registry are those of the first n packages at most. */
  ghost predicate OnlyFirst(b: Bundle, n: nat, r: Registry) {
    forall k | k in r.versions :: exists j :: 0 <= j < n && j < |b.packages| && k == (b.packages[j].name, b.version)
  }

  /** An absent package takes a view, a publish and a tag check. */
  lemma ThreeCommands(b: Bundle, i: nat, r: Registry)
    requires Loaded(b) && i < |b.packages| && OnlyFirst(b, i, r)
    ensures Step(b, Step(b, Process(r, ViewPackage(i)))) == Process(Settled(b, i, r), CheckTag(i))
    ensures Step(b, Process(Settled(b, i, r), CheckTag(i))) == Process(Settled(b, i, r), NextPackage(b, i + 1))
    ensures OnlyFirst(b, i + 1, Settled(b, i, r))
  {
    var p, t := b.packages[i], Settled(b, i, r);
    assert (p.name, b.version) !in r.versions;
    assert Known(t, p.name) by { assert (p.name, b.version) in t.versions; }
    forall k | k in t.versions ensures exists j :: 0 <= j < i + 1 && j < |b.packages| && k == (b.packages[j].name, b.version) {
      if k != (p.name, b.version) {
        var j :| 0 <= j < i && j < |b.packages| && k == (b.packages[j].name, b.version);
      }
    }
  }

  /** Publishing into an empty registry reaches each package in turn with all later ones absent. */
  lemma {:induction false} ReachPackage(b: Bundle, empty: Registry, i: nat) returns (events: seq<Event>)
    requires Loaded(b) && i < |b.packages| && empty == Registry(map[], map[])
    ensures After(b, empty, events).pc == ViewPackage(i) && OnlyFirst(b, i, After(b, empty, events).registry)
  {
    if i == 0 {
      events := [];
    } else {
      var before := ReachPackage(b, empty, i - 1);
      AfterCommand(b, empty, before);
      AfterCommand(b, empty, before + [Command]);
      AfterCommand(b, empty, before + [Command] + [Command]);
      ThreeCommands(b, i - 1, After(b, empty, before).registry);
      events := before + [Command] + [Command] + [Command];
    }
  }

  /** The condition is exact: a bundle that tags `latest` early can be caught with `latest` moved and a package missing. */
  lemma LatestCanComeEarly(b: Bundle, empty: Registry) returns (events: seq<Event>)
    requires Loaded(b) && TagsLatestEarly(b) && empty == Registry(map[], map[])
    ensures !LatestIsRelease(b, empty)
    ensures LatestIsRelease(b, After(b, empty, events).registry) && !AllComplete(b, After(b, empty, events).registry)
  {
    var i :| 0 <= i < |b.packages| - 1 && b.packages[i].name == RELEASE_ENTRY_PACKAGE;
    var before := ReachPackage(b, empty, i);
    var s := After(b, empty, before);
    AfterCommand(b, empty, before);
    AfterCommand(b, empty, before + [Command]);
    events := before + [Command] + [Command];
    ThreeCommands(b, i, s.registry);
    var last := |b.packages| - 1;
    var t := After(b, empty, events);
    assert t.registry == Settled(b, i, s.registry);
    assert (b.packages[last].name, b.version) !in t.registry.versions;
    assert !CompleteAt(b, last, t.registry);
  }
}
