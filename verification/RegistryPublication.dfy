/** The `RegistryPublication` class of scripts/publish-npm-baseline.ts, without crashes. */
module RegistryPublication {
  import opened Prelude
  import opened Publication
  import opened PublicationReports
  import opened PublicationRuns

  /** The registry behind the npm commands. */
  class Npm {
    var versions: map<(string, string), string>
    var tags: map<(string, string), string>

    ghost function State(): Registry
      reads this
    {
      Registry(versions, tags)
    }

    /** `npm publish --tag`: stores a new version and sets the one tag; an existing version is rejected. */
    method Publish(p: Package, version: string, tag: string) returns (ok: bool)
      modifies this
      ensures ok <==> (p.name, version) !in old(versions)
      ensures State() == if ok
                         then Registry(old(versions)[(p.name, version) := p.integrity], old(tags)[(p.name, tag) := version])
                         else old(State())
    {
      ok := (p.name, version) !in versions;
      if ok {
        versions := versions[(p.name, version) := p.integrity];
        tags := tags[(p.name, tag) := version];
      }
    }

    /** `npm dist-tag add`: moves a tag to a version the registry has. */
    method DistTagAdd(name: string, version: string, tag: string) returns (error: Option<Error>)
      modifies `tags
      ensures error == if (name, version) in versions then None else Some(NoSuchVersion(name))
      ensures State() == if error.None? then TagSet(old(State()), name, tag, version) else old(State())
    {
      if (name, version) !in versions {
        return Some(NoSuchVersion(name));
      }
      tags := tags[(name, tag) := version];
      return None;
    }
  }

  class Publisher {
    const bundle: Bundle
    const npm: Npm

    constructor (bundle: Bundle, npm: Npm)
      ensures this.bundle == bundle && this.npm == npm
    {
      this.bundle, this.npm := bundle, npm;
    }

    method EnsureDistTag(name: string, tag: string) returns (error: Option<Error>)
      modifies npm
      ensures var r, found := old(npm.State()), RemoteDistTag(old(npm.State()), name, tag);
              && error == (if found.Err? then Some(found.error)
                           else if found.value == Some(bundle.version) || (name, bundle.version) in r.versions then None
                           else Some(NoSuchVersion(name)))
              && npm.State() == if error.None? && found.value != Some(bundle.version)
                                then TagSet(r, name, tag, bundle.version) else r
    {
      var found := RemoteDistTag(Registry(npm.versions, npm.tags), name, tag);
      if found.Err? {
        return Some(found.error);
      }
      if found.value == Some(bundle.version) {
        return None;
      }
      error := npm.DistTagAdd(name, bundle.version, tag);
    }

    /** Publish or recognise one package, and make sure of its tag. */
    method PublishOne(i: nat) returns (error: Option<Error>)
      requires Loaded(bundle) && i < |bundle.packages|
      modifies npm
      ensures error == Refused(bundle, i, old(npm.State()))
      ensures npm.State() == if error.None? then Settled(bundle, i, old(npm.State())) else old(npm.State())
    {
      var p := bundle.packages[i];
      var existing := RemoteIntegrity(Registry(npm.versions, npm.tags), p.name, bundle.version);
      if existing.Err? {
        return Some(existing.error);
      }
      if existing.value.None? {
        var ok := npm.Publish(p, bundle.version, bundle.distTag);
      } else if existing.value.value != p.integrity {
        return Some(DifferentIntegrity(p.name));
      }
      assert (p.name, bundle.version) in npm.State().versions;
      assert Known(npm.State(), p.name);
      ghost var before := npm.State();
      AddTagSettles(bundle, i, before);
      error := EnsureDistTag(p.name, bundle.distTag);
      if before.tags == npm.tags {
        assert before.tags[(p.name, bundle.distTag) := bundle.version] == before.tags;
      }
    }

    /** The outcome of publishing is that of the big-step run, and its closing verification cannot fail. */
    method Publish() returns (error: Option<Error>)
      requires Loaded(bundle)
      modifies npm
      ensures (npm.State(), error) == PublishFrom(bundle, 0, old(npm.State()))
      ensures error.None? ==> AllComplete(bundle, npm.State()) && EntryReleased(bundle, npm.State())
      ensures PublishReport(bundle, old(npm.State()), npm.State(), error)
    {
      ghost var origin := npm.State();
      RunIsTold(bundle, origin);
      UninterruptedRun(bundle, origin);
      ProcessMatchesOutcome(bundle, origin, 0, origin);
      for i := 0 to |bundle.packages|
        invariant PublishFrom(bundle, i, npm.State()) == PublishFrom(bundle, 0, origin)
      {
        error := PublishOne(i);
        if error.Some? {
          return;
        }
      }
      error := EnsureDistTag(RELEASE_ENTRY_PACKAGE, LATEST);
      if error.Some? {
        return;
      }
      VerificationIsExact(bundle, 0, npm.State());
      var problem := Verify();
      if problem.Some? {
        assert false;
      }
    }

    /** Check every package, then the entry's `latest`. */
    method Verify() returns (error: Option<Error>)
      requires Loaded(bundle)
      ensures error == VerifyFrom(bundle, 0, npm.State())
      ensures VerifyReport(bundle, npm.State(), error)
    {
      VerifyIsTold(bundle, 0, npm.State());
      error := VerifyRemote();
      if error.None? {
        error := VerifyReleaseEntryDistTag();
      }
    }

    method VerifyRemote() returns (error: Option<Error>)
      requires Loaded(bundle)
      ensures VerifyFrom(bundle, 0, npm.State()) == if error.Some? then error else VerifyFrom(bundle, |bundle.packages|, npm.State())
    {
      var r := Registry(npm.versions, npm.tags);
      for i := 0 to |bundle.packages|
        invariant VerifyFrom(bundle, i, r) == VerifyFrom(bundle, 0, r)
      {
        var p := bundle.packages[i];
        var integrity := RemoteIntegrity(r, p.name, bundle.version);
        if integrity.Err? {
          return Some(integrity.error);
        }
        if integrity.value.None? {
          return Some(PackageMissing(p.name));
        }
        if integrity.value.value != p.integrity {
          return Some(IntegrityMismatch(p.name));
        }
        var found := RemoteDistTag(r, p.name, bundle.distTag);
        if found.Err? {
          return Some(found.error);
        }
        if found.value != Some(bundle.version) {
          return Some(WrongTag(p.name, bundle.distTag, found.value));
        }
      }
      return None;
    }

    method VerifyReleaseEntryDistTag() returns (error: Option<Error>)
      requires Loaded(bundle)
      ensures error == VerifyFrom(bundle, |bundle.packages|, npm.State())
    {
      var found := RemoteDistTag(Registry(npm.versions, npm.tags), RELEASE_ENTRY_PACKAGE, LATEST);
      if found.Err? {
        return Some(found.error);
      }
      if found.value != Some(bundle.version) {
        return Some(WrongTag(RELEASE_ENTRY_PACKAGE, LATEST, found.value));
      }
      return None;
    }
  }
}
