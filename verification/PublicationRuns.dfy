/**
 * What holds over all runs of a publication: any number of commands, crashes
 * and restarts, from any registry.
 */
module PublicationRuns {
  import opened Prelude
  import opened Publication

  lemma StepKeepsPublishing(b: Bundle, origin: Registry, s: Process)
    requires Loaded(b) && Invariant(b, origin, s)
    requires s.pc.ViewPackage? || s.pc.PublishPackage? || s.pc.CheckTag? || s.pc.AddTag?
    ensures Invariant(b, origin, Step(b, s))
  {
    var r, i := s.registry, s.pc.i;
    match s.pc
    case ViewPackage(_) =>
    case PublishPackage(_) =>
      SettlingKeeps(b, origin, i, r);
      assert CompleteAt(b, i, Settled(b, i, r));
    case CheckTag(_) =>
      assert Known(r, b.packages[i].name);
      if RemoteDistTag(r, b.packages[i].name, b.distTag) == Ok(Some(b.version)) {
        assert CompleteAt(b, i, r);
      }
    case AddTag(_) =>
      AddTagSettles(b, i, r);
      SettlingKeeps(b, origin, i, r);
  }

  lemma StepKeepsFinishing(b: Bundle, origin: Registry, s: Process)
    requires Loaded(b) && Invariant(b, origin, s)
    requires !(s.pc.ViewPackage? || s.pc.PublishPackage? || s.pc.CheckTag? || s.pc.AddTag?)
    ensures Invariant(b, origin, Step(b, s))
  {
    if s.pc.AddLatest? && (RELEASE_ENTRY_PACKAGE, b.version) in s.registry.versions {
      assert Known(s.registry, RELEASE_ENTRY_PACKAGE);
      assert Known(Step(b, s).registry, RELEASE_ENTRY_PACKAGE);
      PromotingKeeps(b, origin, s.registry);
    }
  }

  lemma StepKeeps(b: Bundle, origin: Registry, s: Process)
    requires Loaded(b) && Invariant(b, origin, s)
    ensures Invariant(b, origin, Step(b, s))
  {
    if s.pc.ViewPackage? || s.pc.PublishPackage? || s.pc.CheckTag? || s.pc.AddTag? {
      StepKeepsPublishing(b, origin, s);
    } else {
      StepKeepsFinishing(b, origin, s);
    }
  }

  lemma {:induction false} RunsKeepInvariant(b: Bundle, origin: Registry, events: seq<Event>)
    requires Loaded(b)
    ensures Invariant(b, origin, After(b, origin, events))
  {
    if events != [] {
      RunsKeepInvariant(b, origin, events[..|events| - 1]);
      StepKeeps(b, origin, After(b, origin, events[..|events| - 1]));
    }
  }

  // ---- Stored integrities are immutable, and nothing else is touched ----

  lemma GrowsBySettling(b: Bundle, origin: Registry, i: nat, r: Registry)
    requires i < |b.packages| && Grows(b, origin, r)
    requires (b.packages[i].name, b.version) !in r.versions || Present(b, i, r)
    ensures Grows(b, origin, Settled(b, i, r))
  {
    var p := b.packages[i];
    assert p in b.packages;
    assert OwnTag(b, (p.name, b.distTag));
    assert FromBundle(b, (p.name, b.version), p.integrity);
  }

  lemma GrowsByLatest(b: Bundle, origin: Registry, r: Registry)
    requires Grows(b, origin, r)
    ensures Grows(b, origin, r.(tags := r.tags[(RELEASE_ENTRY_PACKAGE, LATEST) := b.version]))
  {
    assert OwnTag(b, (RELEASE_ENTRY_PACKAGE, LATEST));
  }

  lemma StepGrows(b: Bundle, origin: Registry, s: Process)
    requires Loaded(b) && Invariant(b, origin, s) && Grows(b, origin, s.registry)
    ensures Grows(b, origin, Step(b, s).registry)
  {
    match s.pc
    case PublishPackage(i) =>
      GrowsBySettling(b, origin, i, s.registry);
    case AddTag(i) =>
      AddTagSettles(b, i, s.registry);
      GrowsBySettling(b, origin, i, s.registry);
    case AddLatest =>
      GrowsByLatest(b, origin, s.registry);
    case _ =>
  }

  /**
   * Over every run with crashes and restarts: a stored integrity never
   * changes, only absent versions of bundled packages appear, and only the
   * bundle's dist-tag and the entry's `latest` move, to the release.
   */
  lemma {:induction false} StoredIntegrityIsImmutable(b: Bundle, origin: Registry, events: seq<Event>)
    requires Loaded(b)
    ensures Grows(b, origin, After(b, origin, events).registry)
  {
    if events != [] {
      var before := events[..|events| - 1];
      StoredIntegrityIsImmutable(b, origin, before);
      RunsKeepInvariant(b, origin, before);
      StepGrows(b, origin, After(b, origin, before));
    }
  }

  // ---- Uninterrupted runs ----

  /** Commands left at most; a refused package ends the run earlier. */
  function CommandsLeft(b: Bundle, pc: Pc): nat {
    var n := |b.packages|;
    match pc
    case ViewPackage(i) => if i < n then 4 * (n - i) + 2 * n + 4 else 0
    case PublishPackage(i) => if i < n then 4 * (n - i) + 2 * n + 3 else 0
    case CheckTag(i) => if i < n then 4 * (n - i) + 2 * n + 2 else 0
    case AddTag(i) => if i < n then 4 * (n - i) + 2 * n + 1 else 0
    case CheckLatest => 2 * n + 3
    case AddLatest => 2 * n + 2
    case VerifyIntegrity(i) => if i < n then 2 * (n - i) + 1 else 0
    case VerifyTag(i) => if i < n then 2 * (n - i) else 0
    case VerifyLatest => 1
    case Done => 0
    case Failed(_) => 0
  }

  lemma StepCounts(b: Bundle, s: Process)
    requires InHand(b, s) && !Stopped(s)
    ensures CommandsLeft(b, Step(b, s).pc) < CommandsLeft(b, s.pc)
  {
  }

  /** The process left alone until it stops. */
  ghost function RunToEnd(b: Bundle, origin: Registry, s: Process): Process
    requires Loaded(b) && Invariant(b, origin, s)
    decreases CommandsLeft(b, s.pc)
  {
    StepKeeps(b, origin, s);
    if Stopped(s) then s else
    StepCounts(b, s);
    RunToEnd(b, origin, Step(b, s))
  }

  /** Verification passes in a registry where everything is in place. */
  lemma {:induction false} VerificationPasses(b: Bundle, origin: Registry, s: Process)
    requires Loaded(b) && Invariant(b, origin, s)
    requires s.pc.VerifyIntegrity? || s.pc.VerifyTag? || s.pc.VerifyLatest?
    ensures RunToEnd(b, origin, s) == Process(s.registry, Done)
    decreases CommandsLeft(b, s.pc)
  {
    if s.pc.VerifyIntegrity? || s.pc.VerifyTag? {
      var p := b.packages[s.pc.i];
      assert CompleteAt(b, s.pc.i, s.registry);
      assert Known(s.registry, p.name) by { assert (p.name, b.version) in s.registry.versions; }
    }
    StepKeeps(b, origin, s);
    StepCounts(b, s);
    if !s.pc.VerifyLatest? {
      VerificationPasses(b, origin, Step(b, s));
    }
  }

  /** From `latest` on, the process does what `Promote` says. */
  lemma PromotionRuns(b: Bundle, origin: Registry, r: Registry)
    requires Loaded(b) && Invariant(b, origin, Process(r, CheckLatest))
    ensures var (end, error) := Promote(b, r);
            RunToEnd(b, origin, Process(r, CheckLatest)) == Process(end, if error.None? then Done else Failed(error.value))
  {
    var s := Process(r, CheckLatest);
    StepKeeps(b, origin, s);
    var t := Step(b, s);
    assert RunToEnd(b, origin, s) == RunToEnd(b, origin, t);
    if t.pc.AddLatest? {
      StepKeeps(b, origin, t);
      var u := Step(b, t);
      assert RunToEnd(b, origin, t) == RunToEnd(b, origin, u);
      if !u.pc.Failed? {
        VerificationPasses(b, origin, u);
      }
    } else if !t.pc.Failed? {
      VerificationPasses(b, origin, t);
    }
  }

  /** The registry a run ends with and how it ends. */
  ghost predicate EndsLike(end: Process, outcome: (Registry, Option<Error>)) {
    end == Process(outcome.0, if outcome.1.None? then Done else Failed(outcome.1.value))
  }

  /** The command-by-command process computes the big-step outcome. */
  lemma {:induction false} ProcessMatchesOutcome(b: Bundle, origin: Registry, i: nat, r: Registry)
    requires Loaded(b) && i <= |b.packages| && Invariant(b, origin, Process(r, NextPackage(b, i)))
    ensures EndsLike(RunToEnd(b, origin, Process(r, NextPackage(b, i))), PublishFrom(b, i, r))
    decreases |b.packages| - i
  {
    if i == |b.packages| {
      PromotionRuns(b, origin, r);
    } else {
      var s := Process(r, ViewPackage(i));
      StepKeeps(b, origin, s);
      var t := Step(b, s);
      if t.pc.PublishPackage? {
        StepKeeps(b, origin, t);
        SettledIsComplete(b, i, r);
        TaggingMatches(b, origin, i, Settled(b, i, r));
      } else if t.pc.CheckTag? {
        TaggingMatches(b, origin, i, r);
      }
    }
  }

  lemma {:induction false} TaggingMatches(b: Bundle, origin: Registry, i: nat, r: Registry)
    requires Loaded(b) && i < |b.packages| && Invariant(b, origin, Process(r, CheckTag(i)))
    ensures EndsLike(RunToEnd(b, origin, Process(r, CheckTag(i))), PublishFrom(b, i + 1, Settled(b, i, r)))
    decreases |b.packages| - i, 0
  {
    var s := Process(r, CheckTag(i));
    StepKeeps(b, origin, s);
    assert Known(r, b.packages[i].name) by { assert (b.packages[i].name, b.version) in r.versions; }
    var t := Step(b, s);
    if t.pc == AddTag(i) {
      AddTagSettles(b, i, r);
      StepKeeps(b, origin, t);
      ProcessMatchesOutcome(b, origin, i + 1, Settled(b, i, r));
    } else {
      assert CompleteAt(b, i, r);
      CompleteIsSettled(b, i, r);
      ProcessMatchesOutcome(b, origin, i + 1, r);
    }
  }

  /** Everything before a run started. */
  lemma StartIsInvariant(b: Bundle, origin: Registry)
    requires Loaded(b)
    ensures Invariant(b, origin, Start(origin))
  {
  }

  /**
   * Crashes leave no trace: after any interrupted history, restarting and
   * running to the end gives the registry and the result that one
   * uninterrupted run from the original registry gives.
   */
  lemma CrashesAreInvisible(b: Bundle, origin: Registry, events: seq<Event>)
    requires Loaded(b)
    ensures var interrupted := After(b, origin, events).registry;
            && Invariant(b, interrupted, Start(interrupted))
            && Invariant(b, origin, Start(origin))
            && RunToEnd(b, interrupted, Start(interrupted)) == RunToEnd(b, origin, Start(origin))
  {
    var interrupted := After(b, origin, events).registry;
    RunsKeepInvariant(b, origin, events);
    StartIsInvariant(b, origin);
    StartIsInvariant(b, interrupted);
    ProcessMatchesOutcome(b, origin, 0, origin);
    ProcessMatchesOutcome(b, interrupted, 0, interrupted);
  }

  // ---- When a run succeeds, and what it leaves ----

  /** No bundled version is stored with another integrity, and the entry's `latest` can be had. */
  ghost predicate Publishable(b: Bundle, r: Registry) {
    && (forall i: nat {:trigger Refused(b, i, r)} | i < |b.packages| :: Refused(b, i, r).None?)
    && ( || (RELEASE_ENTRY_PACKAGE, b.version) in r.versions
         || (exists p | p in b.packages :: p.name == RELEASE_ENTRY_PACKAGE)
         || (Known(r, RELEASE_ENTRY_PACKAGE) && LatestIsRelease(b, r)))
  }

  /** The registry after all of the packages from i on are settled. */
  function SettleFrom(b: Bundle, i: nat, r: Registry): Registry
    requires i <= |b.packages|
    decreases |b.packages| - i
  {
    if i == |b.packages| then r else SettleFrom(b, i + 1, Settled(b, i, r))
  }

  lemma SettledKeepsRefusals(b: Bundle, i: nat, j: nat, r: Registry)
    requires Loaded(b) && i < j < |b.packages|
    ensures Refused(b, j, Settled(b, i, r)) == Refused(b, j, r)
  {
  }

  lemma {:induction false} UnrefusedRunSettlesAll(b: Bundle, i: nat, r: Registry)
    requires Loaded(b) && i <= |b.packages|
    requires forall j: nat {:trigger Refused(b, j, r)} | i <= j < |b.packages| :: Refused(b, j, r).None?
    ensures PublishFrom(b, i, r) == Promote(b, SettleFrom(b, i, r))
    decreases |b.packages| - i
  {
    if i < |b.packages| {
      var t := Settled(b, i, r);
      forall j: nat | i + 1 <= j < |b.packages| ensures Refused(b, j, t).None? {
        assert Refused(b, j, r).None?;
        SettledKeepsRefusals(b, i, j, r);
      }
      UnrefusedRunSettlesAll(b, i + 1, t);
    }
  }

  lemma {:induction false} RefusedRunFails(b: Bundle, i: nat, j: nat, r: Registry)
    requires Loaded(b) && i <= j < |b.packages| && Refused(b, j, r).Some?
    requires forall k: nat {:trigger Refused(b, k, r)} | i <= k < j :: Refused(b, k, r).None?
    ensures PublishFrom(b, i, r).1 == Refused(b, j, r)
    decreases |b.packages| - i
  {
    if i < j {
      var t := Settled(b, i, r);
      assert Refused(b, i, r).None?;
      SettledKeepsRefusals(b, i, j, r);
      forall k: nat | i + 1 <= k < j ensures Refused(b, k, t).None? {
        assert Refused(b, k, r).None?;
        SettledKeepsRefusals(b, i, k, r);
      }
      RefusedRunFails(b, i + 1, j, t);
    }
  }

  /** The versions after settling: exactly the stored ones and the bundle's. */
  lemma {:induction false} SettleFromVersions(b: Bundle, i: nat, r: Registry)
    requires i <= |b.packages|
    ensures var t := SettleFrom(b, i, r);
            && (forall k | k in r.versions :: k in t.versions)
            && (forall j | i <= j < |b.packages| :: (b.packages[j].name, b.version) in t.versions)
            && (forall k | k in t.versions ::
                  k in r.versions || exists j | i <= j < |b.packages| :: k == (b.packages[j].name, b.version))
            && ((forall p | p in b.packages[i..] :: p.name != RELEASE_ENTRY_PACKAGE)
                ==> LatestIsRelease(b, t) == LatestIsRelease(b, r))
    decreases |b.packages| - i
  {
    if i < |b.packages| {
      assert b.packages[i..] == [b.packages[i]] + b.packages[i + 1..];
      SettleFromVersions(b, i + 1, Settled(b, i, r));
    }
  }

  lemma EntryBundled(b: Bundle)
    ensures (exists p | p in b.packages :: p.name == RELEASE_ENTRY_PACKAGE)
            <==> exists j | 0 <= j < |b.packages| :: b.packages[j].name == RELEASE_ENTRY_PACKAGE
  {
    if p :| p in b.packages && p.name == RELEASE_ENTRY_PACKAGE {
      var j :| 0 <= j < |b.packages| && b.packages[j] == p;
    }
  }

  /** When no package is refused, promotion decides, and it needs the entry's version or its tag. */
  lemma PromotionDecides(b: Bundle, r: Registry)
    requires Loaded(b)
    requires forall i: nat {:trigger Refused(b, i, r)} | i < |b.packages| :: Refused(b, i, r).None?
    ensures PublishFrom(b, 0, r).1.None? <==> Publishable(b, r)
  {
    var t := SettleFrom(b, 0, r);
    UnrefusedRunSettlesAll(b, 0, r);
    SettleFromVersions(b, 0, r);
    EntryBundled(b);
    assert b.packages[0..] == b.packages;
    if (RELEASE_ENTRY_PACKAGE, b.version) in t.versions {
      assert Known(t, RELEASE_ENTRY_PACKAGE);
    } else {
      assert Known(t, RELEASE_ENTRY_PACKAGE) <==> Known(r, RELEASE_ENTRY_PACKAGE) by {
        if k :| k in t.versions && k.0 == RELEASE_ENTRY_PACKAGE { assert k in r.versions; }
        if k :| k in r.versions && k.0 == RELEASE_ENTRY_PACKAGE { assert k in t.versions; }
      }
    }
  }

  /** A run succeeds exactly when nothing conflicts; otherwise it names the first refused package. */
  lemma SuccessIffPublishable(b: Bundle, r: Registry)
    requires Loaded(b)
    ensures PublishFrom(b, 0, r).1.None? <==> Publishable(b, r)
    ensures forall j: nat {:trigger Refused(b, j, r)} |
              j < |b.packages| && Refused(b, j, r).Some? && (forall k: nat {:trigger Refused(b, k, r)} | k < j :: Refused(b, k, r).None?) ::
              PublishFrom(b, 0, r).1 == Refused(b, j, r)
  {
    forall j: nat | j < |b.packages| && Refused(b, j, r).Some? && (forall k: nat {:trigger Refused(b, k, r)} | k < j :: Refused(b, k, r).None?)
      ensures PublishFrom(b, 0, r).1 == Refused(b, j, r)
    {
      RefusedRunFails(b, 0, j, r);
    }
    if i: nat :| i < |b.packages| && Refused(b, i, r).Some? {
      var j := FirstRefused(b, i, r);
    } else {
      PromotionDecides(b, r);
    }
  }

  lemma {:induction false} FirstRefused(b: Bundle, i: nat, r: Registry) returns (j: nat)
    requires i < |b.packages| && Refused(b, i, r).Some?
    ensures j <= i && Refused(b, j, r).Some?
    ensures forall k: nat {:trigger Refused(b, k, r)} | k < j :: Refused(b, k, r).None?
    decreases i
  {
    if k: nat :| k < i && Refused(b, k, r).Some? {
      j := FirstRefused(b, k, r);
    } else {
      j := i;
    }
  }

  lemma {:induction false} RunToEndKeeps(b: Bundle, origin: Registry, s: Process)
    requires Loaded(b) && Invariant(b, origin, s) && Grows(b, origin, s.registry)
    ensures var end := RunToEnd(b, origin, s);
            Stopped(end) && Invariant(b, origin, end) && Grows(b, origin, end.registry)
    decreases CommandsLeft(b, s.pc)
  {
    if !Stopped(s) {
      StepKeeps(b, origin, s);
      StepGrows(b, origin, s);
      StepCounts(b, s);
      RunToEndKeeps(b, origin, Step(b, s));
    }
  }

  /**
   * One uninterrupted run from any registry: it completes exactly when the
   * bundle is publishable, it adds only what was absent, and once complete
   * everything is in place and verification succeeds.
   */
  lemma UninterruptedRun(b: Bundle, r: Registry)
    requires Loaded(b)
    ensures Invariant(b, r, Start(r))
    ensures var end := RunToEnd(b, r, Start(r));
            && Stopped(end)
            && (end.pc.Done? <==> Publishable(b, r))
            && Grows(b, r, end.registry)
            && (end.pc.Done? ==> AllComplete(b, end.registry) && VerifyFrom(b, 0, end.registry).None?)
  {
    StartIsInvariant(b, r);
    RunToEndKeeps(b, r, Start(r));
    ProcessMatchesOutcome(b, r, 0, r);
    SuccessIffPublishable(b, r);
    VerificationIsExact(b, 0, RunToEnd(b, r, Start(r)).registry);
  }
}
