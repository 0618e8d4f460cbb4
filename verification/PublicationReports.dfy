/**
 * What publishing and verifying report and write, told from the stored
 * integrities and tags and without the commands that find it out.
 */
module PublicationReports {
  import opened Prelude
  import opened Publication

  function Stored(r: Registry, name: string, version: string): Option<string> {
    if (name, version) in r.versions then Some(r.versions[(name, version)]) else None
  }

  function Tagged(r: Registry, name: string, tag: string): Option<string> {
    if (name, tag) in r.tags then Some(r.tags[(name, tag)]) else None
  }

  predicate InPlace(b: Bundle, p: Package, r: Registry) {
    Stored(r, p.name, b.version) == Some(p.integrity) && Tagged(r, p.name, b.distTag) == Some(b.version)
  }

  predicate Usable(integrity: string) {
    |integrity| >= 7 && integrity[..7] == "sha512-"
  }

  ghost predicate HasVersions(r: Registry, name: string) {
    exists k | k in r.versions :: k.0 == name
  }

  // ---- Verification ----

  /** What is wrong with a package that is not in place. */
  ghost predicate Shortcoming(b: Bundle, p: Package, r: Registry, e: Error) {
    var stored, found := Stored(r, p.name, b.version), Tagged(r, p.name, b.distTag);
    if stored.None? then e == PackageMissing(p.name)
    else if !Usable(stored.value) then e == NoIntegrity(p.name)
    else if stored.value != p.integrity then e == IntegrityMismatch(p.name)
    else found != Some(b.version) && e == WrongTag(p.name, b.distTag, found)
  }

  /** What verification says of the entry package's `latest`. */
  ghost predicate LatestReport(b: Bundle, r: Registry, error: Option<Error>) {
    var entry, found := "@deepseek-ai/dsh", Tagged(r, "@deepseek-ai/dsh", "latest");
    error == if !HasVersions(r, entry) then Some(UnknownPackage(entry))
             else if found == Some(b.version) then None
             else Some(WrongTag(entry, "latest", found))
  }

  /** The first package that is not in place is reported, and with all in place what is said of `latest`. */
  ghost predicate VerifyReport(b: Bundle, r: Registry, error: Option<Error>) {
    && (forall i | 0 <= i < |b.packages| && !InPlace(b, b.packages[i], r) && (forall j | 0 <= j < i :: InPlace(b, b.packages[j], r)) ::
          error.Some? && Shortcoming(b, b.packages[i], r, error.value))
    && ((forall i | 0 <= i < |b.packages| :: InPlace(b, b.packages[i], r)) ==> LatestReport(b, r, error))
  }

  lemma {:induction false} VerifyIsTold(b: Bundle, i: nat, r: Registry)
    requires Loaded(b) && i <= |b.packages| && forall j | 0 <= j < i :: InPlace(b, b.packages[j], r)
    ensures VerifyReport(b, r, VerifyFrom(b, i, r))
    decreases |b.packages| - i
  {
    if i < |b.packages| {
      var p := b.packages[i];
      assert Usable(p.integrity);
      assert (p.name, b.version) in r.versions ==> Known(r, p.name);
      if InPlace(b, p, r) {
        VerifyIsTold(b, i + 1, r);
      } else {
        assert Shortcoming(b, p, r, VerifyFrom(b, i, r).value);
      }
    }
  }

  // ---- Publishing ----

  /** A stored integrity that is not the package's. */
  predicate Conflict(b: Bundle, p: Package, r: Registry) {
    Stored(r, p.name, b.version) !in {None, Some(p.integrity)}
  }

  ghost predicate AmongFirst(b: Bundle, n: nat, name: string) {
    exists j | 0 <= j < n && j < |b.packages| :: b.packages[j].name == name
  }

  /** The first n packages have been published and tagged, and nothing else has changed. */
  ghost predicate WroteFirst(b: Bundle, n: nat, before: Registry, after: Registry) {
    && n <= |b.packages|
    && (forall j | 0 <= j < n :: InPlace(b, b.packages[j], after))
    && (forall name, version | !(version == b.version && AmongFirst(b, n, name)) ::
          Stored(after, name, version) == Stored(before, name, version))
    && (forall name, tag | !(tag == b.distTag && AmongFirst(b, n, name)) ::
          Tagged(after, name, tag) == Tagged(before, name, tag))
  }

  /** What the registry and the result are once all packages are written. */
  ghost predicate PromoteReport(b: Bundle, written: Registry, after: Registry, error: Option<Error>) {
    var entry := "@deepseek-ai/dsh";
    if !HasVersions(written, entry) then after == written && error == Some(UnknownPackage(entry))
    else if Tagged(written, entry, "latest") == Some(b.version) then after == written && error == None
    else if Stored(written, entry, b.version).None? then after == written && error == Some(NoSuchVersion(entry))
    else after == Registry(written.versions, written.tags[(entry, "latest") := b.version]) && error == None
  }

  /**
   * The packages before the first conflict are published and tagged. A conflict
   * ends the run with its reason; without one, `latest` is moved or the reason
   * why it cannot be is given.
   */
  ghost predicate PublishReport(b: Bundle, before: Registry, after: Registry, error: Option<Error>) {
    exists n: nat, written: Registry {:trigger StoppedAt(b, n, before, written, after, error)} ::
      StoppedAt(b, n, before, written, after, error)
  }

  /** Why a conflicting package cannot be published. */
  function Reason(b: Bundle, p: Package, r: Registry): Error
    requires Conflict(b, p, r)
  {
    if Usable(Stored(r, p.name, b.version).value) then DifferentIntegrity(p.name) else NoIntegrity(p.name)
  }

  ghost predicate StoppedAt(b: Bundle, n: nat, before: Registry, written: Registry, after: Registry, error: Option<Error>) {
    && WroteFirst(b, n, before, written)
    && (forall j | 0 <= j < n :: !Conflict(b, b.packages[j], before))
    && if n < |b.packages| then
         Conflict(b, b.packages[n], before) && after == written && error == Some(Reason(b, b.packages[n], before))
       else PromoteReport(b, written, after, error)
  }

  lemma WriteOneMore(b: Bundle, i: nat, before: Registry, r: Registry)
    requires Loaded(b) && i < |b.packages| && WroteFirst(b, i, before, r)
    ensures WroteFirst(b, i + 1, before, Settled(b, i, r))
    ensures Stored(r, b.packages[i].name, b.version) == Stored(before, b.packages[i].name, b.version)
  {
    var p, t := b.packages[i], Settled(b, i, r);
    assert !AmongFirst(b, i, p.name);
    forall name ensures AmongFirst(b, i + 1, name) <==> AmongFirst(b, i, name) || name == p.name {
      if name == p.name { assert b.packages[i].name == name; }
    }
    forall j | 0 <= j < i + 1 ensures InPlace(b, b.packages[j], t) {
      assert j < i ==> InPlace(b, b.packages[j], r);
    }
  }

  lemma PromoteIsTold(b: Bundle, r: Registry)
    ensures PromoteReport(b, r, Promote(b, r).0, Promote(b, r).1)
  {
  }

  lemma RefusedIsConflict(b: Bundle, i: nat, before: Registry, r: Registry)
    requires Loaded(b) && i < |b.packages|
    requires Stored(r, b.packages[i].name, b.version) == Stored(before, b.packages[i].name, b.version)
    ensures Refused(b, i, r) == if Conflict(b, b.packages[i], before) then Some(Reason(b, b.packages[i], before)) else None
  {
    assert Usable(b.packages[i].integrity);
  }

  lemma {:induction false} PublishIsTold(b: Bundle, i: nat, before: Registry, r: Registry)
    requires Loaded(b) && WroteFirst(b, i, before, r) && forall j | 0 <= j < i :: !Conflict(b, b.packages[j], before)
    ensures PublishReport(b, before, PublishFrom(b, i, r).0, PublishFrom(b, i, r).1)
    decreases |b.packages| - i
  {
    var (after, error) := PublishFrom(b, i, r);
    if i == |b.packages| {
      PromoteIsTold(b, r);
      assert StoppedAt(b, i, before, r, after, error);
    } else {
      WriteOneMore(b, i, before, r);
      RefusedIsConflict(b, i, before, r);
      if Conflict(b, b.packages[i], before) {
        assert StoppedAt(b, i, before, r, after, error);
      } else {
        PublishIsTold(b, i + 1, before, Settled(b, i, r));
      }
    }
  }

  /** The same from the start of a run. */
  lemma RunIsTold(b: Bundle, before: Registry)
    requires Loaded(b)
    ensures PublishReport(b, before, PublishFrom(b, 0, before).0, PublishFrom(b, 0, before).1)
  {
    assert WroteFirst(b, 0, before, before);
    PublishIsTold(b, 0, before, before);
  }
}
