/**
 * The resumable publication of scripts/publish-npm-baseline.ts. The registry is
 * a value, each npm command is one step, and a process may be restarted
 * between any two commands.
 */
module Publication {
  import opened Prelude

  const RELEASE_ENTRY_PACKAGE := "@deepseek-ai/dsh"
  const LATEST := "latest"
  const INTEGRITY_PREFIX := "sha512-"

  /** Integrity by package name and version, and version by package name and tag. */
  datatype Registry = Registry(versions: map<(string, string), string>, tags: map<(string, string), string>)

  datatype Package = Package(name: string, integrity: string)

  datatype Bundle = Bundle(version: string, distTag: string, packages: seq<Package>)

  /** What loading a manifest guarantees about it. */
  ghost predicate Loaded(b: Bundle) {
    && b.packages != []
    && (forall i, j | 0 <= i < j < |b.packages| :: b.packages[i].name != b.packages[j].name)
    && (forall i | 0 <= i < |b.packages| :: INTEGRITY_PREFIX <= b.packages[i].integrity)
  }

  datatype Error =
    | NoIntegrity(name: string)
    | DifferentIntegrity(name: string)
    | UnknownPackage(name: string)
    | NoSuchVersion(name: string)
    | PackageMissing(name: string)
    | IntegrityMismatch(name: string)
    | WrongTag(name: string, tag: string, found: Option<string>)

  // ---- What the registry answers ----

  predicate Known(r: Registry, name: string) {
    exists k | k in r.versions :: k.0 == name
  }

  /** `npm view name@version dist.integrity`: absent, an integrity, or no usable answer. */
  function RemoteIntegrity(r: Registry, name: string, version: string): Result<Option<string>, Error> {
    if (name, version) !in r.versions then Ok(None)
    else if INTEGRITY_PREFIX <= r.versions[(name, version)] then Ok(Some(r.versions[(name, version)]))
    else Err(NoIntegrity(name))
  }

  /** `npm dist-tag ls name`, which fails for a package the registry does not have. */
  function RemoteDistTag(r: Registry, name: string, tag: string): Result<Option<string>, Error> {
    if !Known(r, name) then Err(UnknownPackage(name))
    else if (name, tag) in r.tags then Ok(Some(r.tags[(name, tag)]))
    else Ok(None)
  }

  function TagSet(r: Registry, name: string, tag: string, version: string): Registry {
    r.(tags := r.tags[(name, tag) := version])
  }

  /** Package i with its integrity and its dist-tag in place. */
  function Settled(b: Bundle, i: nat, r: Registry): Registry
    requires i < |b.packages|
  {
    var p := b.packages[i];
    Registry(r.versions[(p.name, b.version) := p.integrity], r.tags[(p.name, b.distTag) := b.version])
  }

  // ---- One process, command by command ----

  datatype Pc =
    | ViewPackage(i: nat)
    | PublishPackage(i: nat)
    | CheckTag(i: nat)
    | AddTag(i: nat)
    | CheckLatest
    | AddLatest
    | VerifyIntegrity(i: nat)
    | VerifyTag(i: nat)
    | VerifyLatest
    | Done
    | Failed(error: Error)

  datatype Process = Process(registry: Registry, pc: Pc)

  predicate Stopped(s: Process) {
    s.pc.Done? || s.pc.Failed?
  }

  function NextPackage(b: Bundle, i: nat): Pc {
    if i < |b.packages| then ViewPackage(i) else CheckLatest
  }

  function NextVerified(b: Bundle, i: nat): Pc {
    if i < |b.packages| then VerifyIntegrity(i) else VerifyLatest
  }

  function Step(b: Bundle, s: Process): Process {
    var r := s.registry;
    match s.pc
    case ViewPackage(i) =>
      if i >= |b.packages| then s else
      var p := b.packages[i];
      (match RemoteIntegrity(r, p.name, b.version)
       case Err(e) => s.(pc := Failed(e))
       case Ok(None) => s.(pc := PublishPackage(i))
       case Ok(Some(x)) => if x != p.integrity then s.(pc := Failed(DifferentIntegrity(p.name))) else s.(pc := CheckTag(i)))
    case PublishPackage(i) =>
      if i >= |b.packages| then s else Process(Settled(b, i, r), CheckTag(i))
    case CheckTag(i) =>
      if i >= |b.packages| then s else
      var p := b.packages[i];
      (match RemoteDistTag(r, p.name, b.distTag)
       case Err(e) => s.(pc := Failed(e))
       case Ok(found) => if found == Some(b.version) then s.(pc := NextPackage(b, i + 1)) else s.(pc := AddTag(i)))
    case AddTag(i) =>
      if i >= |b.packages| then s else
      var p := b.packages[i];
      if (p.name, b.version) !in r.versions then s.(pc := Failed(NoSuchVersion(p.name)))
      else Process(TagSet(r, p.name, b.distTag, b.version), NextPackage(b, i + 1))
    case CheckLatest =>
      (match RemoteDistTag(r, RELEASE_ENTRY_PACKAGE, LATEST)
       case Err(e) => s.(pc := Failed(e))
       case Ok(found) => if found == Some(b.version) then s.(pc := NextVerified(b, 0)) else s.(pc := AddLatest))
    case AddLatest =>
      if (RELEASE_ENTRY_PACKAGE, b.version) !in r.versions then s.(pc := Failed(NoSuchVersion(RELEASE_ENTRY_PACKAGE)))
      else Process(TagSet(r, RELEASE_ENTRY_PACKAGE, LATEST, b.version), NextVerified(b, 0))
    case VerifyIntegrity(i) =>
      if i >= |b.packages| then s else
      var p := b.packages[i];
      (match RemoteIntegrity(r, p.name, b.version)
       case Err(e) => s.(pc := Failed(e))
       case Ok(None) => s.(pc := Failed(PackageMissing(p.name)))
       case Ok(Some(x)) => if x != p.integrity then s.(pc := Failed(IntegrityMismatch(p.name))) else s.(pc := VerifyTag(i)))
    case VerifyTag(i) =>
      if i >= |b.packages| then s else
      var p := b.packages[i];
      (match RemoteDistTag(r, p.name, b.distTag)
       case Err(e) => s.(pc := Failed(e))
       case Ok(found) =>
         if found != Some(b.version) then s.(pc := Failed(WrongTag(p.name, b.distTag, found)))
         else s.(pc := NextVerified(b, i + 1)))
    case VerifyLatest =>
      (match RemoteDistTag(r, RELEASE_ENTRY_PACKAGE, LATEST)
       case Err(e) => s.(pc := Failed(e))
       case Ok(found) =>
         if found != Some(b.version) then s.(pc := Failed(WrongTag(RELEASE_ENTRY_PACKAGE, LATEST, found))) else s.(pc := Done))
    case Done => s
    case Failed(_) => s
  }

  function Start(r: Registry): Process {
    Process(r, ViewPackage(0))
  }

  /** The process issues its next command, or it dies and is started again. */
  datatype Event = Command | Restart

  function After(b: Bundle, r: Registry, events: seq<Event>): Process {
    if events == [] then Start(r)
    else
      var before := After(b, r, events[..|events| - 1]);
      match events[|events| - 1]
      case Command => Step(b, before)
      case Restart => Start(before.registry)
  }

  // ---- The outcome of one uninterrupted run ----

  /** Why package i stops the run, if it does. */
  function Refused(b: Bundle, i: nat, r: Registry): Option<Error>
    requires i < |b.packages|
  {
    match RemoteIntegrity(r, b.packages[i].name, b.version)
    case Err(e) => Some(e)
    case Ok(None) => None
    case Ok(Some(x)) => if x != b.packages[i].integrity then Some(DifferentIntegrity(b.packages[i].name)) else None
  }

  /** The registry and the error, if any, after publishing from package i on. */
  function PublishFrom(b: Bundle, i: nat, r: Registry): (Registry, Option<Error>)
    requires i <= |b.packages|
    decreases |b.packages| - i
  {
    if i == |b.packages| then Promote(b, r)
    else if Refused(b, i, r).Some? then (r, Refused(b, i, r))
    else PublishFrom(b, i + 1, Settled(b, i, r))
  }

  /** Point `latest` of the entry package at the release. */
  function Promote(b: Bundle, r: Registry): (Registry, Option<Error>) {
    match RemoteDistTag(r, RELEASE_ENTRY_PACKAGE, LATEST)
    case Err(e) => (r, Some(e))
    case Ok(found) =>
      if found == Some(b.version) then (r, None)
      else if (RELEASE_ENTRY_PACKAGE, b.version) !in r.versions then (r, Some(NoSuchVersion(RELEASE_ENTRY_PACKAGE)))
      else (TagSet(r, RELEASE_ENTRY_PACKAGE, LATEST, b.version), None)
  }

  /** Package i is in the registry with the bundle's integrity and dist-tag. */
  predicate CompleteAt(b: Bundle, i: nat, r: Registry) {
    i < |b.packages| ==>
      && (b.packages[i].name, b.version) in r.versions
      && r.versions[(b.packages[i].name, b.version)] == b.packages[i].integrity
      && (b.packages[i].name, b.distTag) in r.tags
      && r.tags[(b.packages[i].name, b.distTag)] == b.version
  }

  ghost predicate CompleteBelow(b: Bundle, n: nat, r: Registry) {
    forall i: nat {:trigger CompleteAt(b, i, r)} | i < n :: CompleteAt(b, i, r)
  }

  ghost predicate AllComplete(b: Bundle, r: Registry) {
    CompleteBelow(b, |b.packages|, r)
  }

  predicate LatestIsRelease(b: Bundle, r: Registry) {
    (RELEASE_ENTRY_PACKAGE, LATEST) in r.tags && r.tags[(RELEASE_ENTRY_PACKAGE, LATEST)] == b.version
  }

  predicate EntryReleased(b: Bundle, r: Registry) {
    Known(r, RELEASE_ENTRY_PACKAGE) && LatestIsRelease(b, r)
  }

  /** What verification reports, from package i on. */
  function VerifyFrom(b: Bundle, i: nat, r: Registry): Option<Error>
    requires i <= |b.packages|
    decreases |b.packages| - i
  {
    if i == |b.packages| then
      match RemoteDistTag(r, RELEASE_ENTRY_PACKAGE, LATEST)
      case Err(e) => Some(e)
      case Ok(found) => if found != Some(b.version) then Some(WrongTag(RELEASE_ENTRY_PACKAGE, LATEST, found)) else None
    else
      var p := b.packages[i];
      match RemoteIntegrity(r, p.name, b.version)
      case Err(e) => Some(e)
      case Ok(None) => Some(PackageMissing(p.name))
      case Ok(Some(x)) =>
        if x != p.integrity then Some(IntegrityMismatch(p.name))
        else
          match RemoteDistTag(r, p.name, b.distTag)
          case Err(e) => Some(e)
          case Ok(found) =>
            if found != Some(b.version) then Some(WrongTag(p.name, b.distTag, found)) else VerifyFrom(b, i + 1, r)
  }

  /** Verification succeeds exactly when every package is complete and `latest` is the release. */
  lemma {:induction false} VerificationIsExact(b: Bundle, i: nat, r: Registry)
    requires Loaded(b) && i <= |b.packages| && CompleteBelow(b, i, r)
    ensures VerifyFrom(b, i, r).None? <==> AllComplete(b, r) && EntryReleased(b, r)
    decreases |b.packages| - i
  {
    if i < |b.packages| {
      var p := b.packages[i];
      if (p.name, b.version) in r.versions {
        assert Known(r, p.name);
      }
      if CompleteAt(b, i, r) {
        VerificationIsExact(b, i + 1, r);
      } else {
        assert !AllComplete(b, r);
      }
    }
  }

  // ---- Facts about a single write ----

  lemma SettledKeepsComplete(b: Bundle, i: nat, j: nat, r: Registry)
    requires Loaded(b) && i < |b.packages| && CompleteAt(b, j, r)
    ensures CompleteAt(b, j, Settled(b, i, r))
  {
  }

  lemma SettledIsComplete(b: Bundle, i: nat, r: Registry)
    requires i < |b.packages|
    ensures CompleteAt(b, i, Settled(b, i, r))
    ensures Settled(b, i, Settled(b, i, r)) == Settled(b, i, r)
  {
  }

  lemma CompleteIsSettled(b: Bundle, i: nat, r: Registry)
    requires Loaded(b) && i < |b.packages| && CompleteAt(b, i, r)
    ensures Settled(b, i, r) == r && Refused(b, i, r).None?
  {
    var p := b.packages[i];
    assert r.versions[(p.name, b.version) := p.integrity] == r.versions;
    assert r.tags[(p.name, b.distTag) := b.version] == r.tags;
  }

  /** A run over packages that are already complete changes nothing. */
  lemma {:induction false} CompletePrefixIsSkipped(b: Bundle, i: nat, n: nat, r: Registry)
    requires Loaded(b) && i <= n <= |b.packages| && CompleteBelow(b, n, r)
    ensures PublishFrom(b, i, r) == PublishFrom(b, n, r)
    decreases n - i
  {
    if i < n {
      assert CompleteAt(b, i, r);
      CompleteIsSettled(b, i, r);
      CompletePrefixIsSkipped(b, i + 1, n, r);
    }
  }

  // ---- What every state of every interrupted run keeps ----

  /** How many leading packages the program counter vouches for. */
  function Vouched(b: Bundle, pc: Pc): nat {
    match pc
    case ViewPackage(i) => i
    case PublishPackage(i) => i
    case CheckTag(i) => i
    case AddTag(i) => i
    case CheckLatest => |b.packages|
    case AddLatest => |b.packages|
    case VerifyIntegrity(_) => |b.packages|
    case VerifyTag(_) => |b.packages|
    case VerifyLatest => |b.packages|
    case Done => |b.packages|
    case Failed(_) => 0
  }

  /** Facts about the package in hand, and about `latest` once it was ensured. */
  ghost predicate InHand(b: Bundle, s: Process) {
    match s.pc
    case ViewPackage(i) => i < |b.packages|
    case PublishPackage(i) => i < |b.packages| && (b.packages[i].name, b.version) !in s.registry.versions
    case CheckTag(i) => i < |b.packages| && Present(b, i, s.registry)
    case AddTag(i) => i < |b.packages| && Present(b, i, s.registry)
    case VerifyIntegrity(i) => i < |b.packages| && EntryReleased(b, s.registry)
    case VerifyTag(i) => i < |b.packages| && EntryReleased(b, s.registry)
    case VerifyLatest => EntryReleased(b, s.registry)
    case Done => EntryReleased(b, s.registry)
    case _ => true
  }

  predicate Present(b: Bundle, i: nat, r: Registry)
    requires i < |b.packages|
  {
    (b.packages[i].name, b.version) in r.versions && r.versions[(b.packages[i].name, b.version)] == b.packages[i].integrity
  }

  /** Versions only grow, and nothing outside the bundle and the entry's `latest` moves. */
  ghost predicate Grows(b: Bundle, before: Registry, r: Registry) {
    VersionsGrow(b, before.versions, r.versions) && TagsMove(b, before.tags, r.tags)
  }

  /** A version and integrity that the bundle publishes. */
  ghost predicate FromBundle(b: Bundle, k: (string, string), integrity: string) {
    exists i: nat :: i < |b.packages| && k == (b.packages[i].name, b.version) && integrity == b.packages[i].integrity
  }

  ghost predicate VersionsGrow(b: Bundle, before: map<(string, string), string>, after: map<(string, string), string>) {
    && (forall k | k in before :: k in after && after[k] == before[k])
    && (forall k | k in after && k !in before :: FromBundle(b, k, after[k]))
  }

  ghost predicate TagsMove(b: Bundle, before: map<(string, string), string>, after: map<(string, string), string>) {
    && (forall k | k in before && !OwnTag(b, k) :: k in after && after[k] == before[k])
    && (forall k | k in after && !(k in before && after[k] == before[k]) :: OwnTag(b, k) && after[k] == b.version)
  }

  /** The tags a publication may move. */
  predicate OwnTag(b: Bundle, k: (string, string)) {
    k == (RELEASE_ENTRY_PACKAGE, LATEST) || (k.1 == b.distTag && exists p | p in b.packages :: p.name == k.0)
  }

  ghost predicate Invariant(b: Bundle, origin: Registry, s: Process) {
    && Vouched(b, s.pc) <= |b.packages|
    && CompleteBelow(b, Vouched(b, s.pc), s.registry)
    && InHand(b, s)
    && PublishFrom(b, 0, s.registry) == PublishFrom(b, 0, origin)
  }

  /** A write at package i that leads to its settled form changes neither the prefix nor the eventual outcome. */
  lemma SettlingKeeps(b: Bundle, origin: Registry, i: nat, r: Registry)
    requires Loaded(b) && i < |b.packages| && CompleteBelow(b, i, r) && Refused(b, i, r).None?
    requires PublishFrom(b, 0, r) == PublishFrom(b, 0, origin)
    ensures CompleteBelow(b, i + 1, Settled(b, i, r))
    ensures PublishFrom(b, 0, Settled(b, i, r)) == PublishFrom(b, 0, origin)
  {
    var t := Settled(b, i, r);
    forall j: nat | j < i + 1 ensures CompleteAt(b, j, t) {
      if j < i {
        assert CompleteAt(b, j, r);
        SettledKeepsComplete(b, i, j, r);
      } else {
        SettledIsComplete(b, i, r);
      }
    }
    CompletePrefixIsSkipped(b, 0, i, r);
    CompletePrefixIsSkipped(b, 0, i + 1, t);
  }

  lemma AddTagSettles(b: Bundle, i: nat, r: Registry)
    requires i < |b.packages| && Present(b, i, r)
    ensures TagSet(r, b.packages[i].name, b.distTag, b.version) == Settled(b, i, r)
  {
    var p := b.packages[i];
    assert r.versions[(p.name, b.version) := p.integrity] == r.versions;
  }

  lemma PromotingKeeps(b: Bundle, origin: Registry, r: Registry)
    requires Loaded(b) && AllComplete(b, r) && (RELEASE_ENTRY_PACKAGE, b.version) in r.versions
    requires PublishFrom(b, 0, r) == PublishFrom(b, 0, origin)
    ensures AllComplete(b, TagSet(r, RELEASE_ENTRY_PACKAGE, LATEST, b.version))
    ensures LatestIsRelease(b, TagSet(r, RELEASE_ENTRY_PACKAGE, LATEST, b.version))
    ensures PublishFrom(b, 0, TagSet(r, RELEASE_ENTRY_PACKAGE, LATEST, b.version)) == PublishFrom(b, 0, origin)
  {
    var t := TagSet(r, RELEASE_ENTRY_PACKAGE, LATEST, b.version);
    forall j: nat | j < |b.packages| ensures CompleteAt(b, j, t) {
      assert CompleteAt(b, j, r);
    }
    CompletePrefixIsSkipped(b, 0, |b.packages|, r);
    CompletePrefixIsSkipped(b, 0, |b.packages|, t);
    assert Known(r, RELEASE_ENTRY_PACKAGE) && Known(t, RELEASE_ENTRY_PACKAGE);
    if LatestIsRelease(b, r) {
      assert r.tags[(RELEASE_ENTRY_PACKAGE, LATEST) := b.version] == r.tags;
    }
  }
}
