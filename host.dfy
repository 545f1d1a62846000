/**
  One release host, changed in place by the deploy tasks. Each method states
  its new state as the function of module Tasks applied to the old state;
  the properties of those functions are proved there.
 */
module Host {
  import opened Wrappers
  import opened Strings
  import opened Settings
  import opened ReleaseDir
  import opened Tasks

  class RemoteHost {
    /** The entries of `releases_path`. */
    var listing: seq<string>
    /** The target of the `current_path` symlink. */
    var current: Option<string>
    /** The directories `deploy:setup` created. */
    var dirs: set<string>

    predicate Valid()
      reads this
    {
      Distinct(listing)
    }

    function State(): HostState
      reads this
    {
      HostState(listing, current, dirs)
    }

    constructor (s: HostState)
      requires Wf(s)
      ensures Valid() && State() == s
    {
      listing, current, dirs := s.listing, s.current, s.dirs;
    }

    /** `mkdir -p` of the directory list. */
    method Setup(c: Config)
      modifies this
      ensures Valid() == old(Valid())
      ensures State() == Tasks.Setup(c, old(State()))
    {
      var made := SetupDirs(c);
      dirs := dirs + Elements(made);
    }

    /** `rm -rf` of release directories. */
    method RemoveReleaseDirs(names: set<string>)
      requires Valid()
      modifies this
      ensures Valid()
      ensures State() == RemoveReleases(old(State()), names)
    {
      RemoveReleasesWf(State(), names);
      listing := Without(listing, names);
    }

    method Cleanup(c: Config) returns (error: Option<TaskError>)
      requires Valid()
      modifies this
      ensures Valid()
      ensures Outcome(State(), error) == Tasks.Cleanup(c, old(State()))
    {
      var releases := Releases(listing);
      var count := KeepReleases(c);
      if count >= |releases| {
        // "no old releases to clean up"
        WithoutNone(listing, Elements([]));
        error := None;
      } else if count < 0 {
        error := Some(NegativeKeepReleases);
      } else {
        var victims := Difference(releases, releases[|releases| - count..]);
        RemoveReleaseDirs(Elements(victims));
        error := None;
      }
    }

    method RollbackRevision(c: Config) returns (error: Option<TaskError>)
      requires Valid()
      modifies this
      ensures Valid()
      ensures Outcome(State(), error) == Tasks.RollbackRevision(c, old(State()))
    {
      var previous := PreviousRelease(c, listing);
      if previous.Some? {
        current := None;       // rm current_path
        current := previous;   // ln -s previous_release current_path
        error := None;
      } else {
        error := Some(NoPriorRelease);
      }
    }

    method RollbackCleanup(c: Config)
      requires Valid()
      modifies this
      ensures Valid()
      ensures State() == Tasks.RollbackCleanup(c, old(State()))
    {
      var releases := Releases(listing);
      var currentRelease := CurrentRelease(c, listing);
      if currentRelease.Some? && current.Some? && current.value != currentRelease.value {
        RemoveReleaseDirs({releases[|releases| - 1]});
      }
    }

    method Rollback(c: Config) returns (error: Option<TaskError>)
      requires Valid()
      modifies this
      ensures Valid()
      ensures Outcome(State(), error) == Tasks.Rollback(c, old(State()))
    {
      error := RollbackRevision(c);
      if error.None? {
        RollbackCleanup(c);
      }
    }

    method Symlink(c: Config)
      modifies this
      ensures Valid() == old(Valid())
      ensures State() == Tasks.Symlink(c, old(State()))
    {
      current := None;                          // rm -f current_path
      current := LatestRelease(c, listing);     // ln -s latest_release current_path
    }

    /** strategy.deploy! materialises the release directory. */
    method CreateReleaseDir(name: string)
      requires Valid()
      modifies this
      ensures Valid()
      ensures State() == CreateRelease(old(State()), name)
    {
      CreateReleaseWf(State(), name);
      if name !in listing {
        listing := listing + [name];
      }
    }

    method Compensate(c: Config, k: Compensation)
      requires Valid()
      modifies this
      ensures Valid()
      ensures State() == Tasks.Compensate(c, old(State()), k)
    {
      match k
      case RemoveNewRelease =>
        RemoveReleaseDirs({ReleaseName(c)});
      case RelinkPrevious =>
        var previous := PreviousRelease(c, listing);
        if previous.Some? {
          current := previous;
        }
      case RestoreLink(saved) =>
        current := saved;
    }

    /** The transaction engine: the registered compensations, the last one
        first. */
    method Unwind(c: Config, pending: seq<Compensation>)
      requires Valid()
      modifies this
      ensures Valid()
      ensures State() == Tasks.Unwind(c, old(State()), pending)
    {
      var i := |pending|;
      assert pending[..i] == pending;
      while i > 0
        invariant 0 <= i <= |pending|
        invariant Valid()
        invariant Tasks.Unwind(c, State(), pending[..i]) == Tasks.Unwind(c, old(State()), pending)
        decreases i
      {
        assert pending[..i][..i - 1] == pending[..i - 1];
        Compensate(c, pending[i - 1]);
        i := i - 1;
      }
    }

    /** update_code then symlink inside a transaction; `linkBack` is what
        symlink registers with `on_rollback`. */
    method Transaction(c: Config, fault: Fault, linkBack: Compensation)
      returns (config: Config, error: Option<TaskError>)
      requires Valid()
      modifies this
      ensures Valid()
      ensures UpdateRun(config, State(), error) == UpdateWith(c, old(State()), fault, linkBack)
    {
      config := AfterReleaseName(c);
      var pending := [RemoveNewRelease];
      // update_code
      if fault.DeployFails? {
        if fault.leftBehind {
          CreateReleaseDir(ReleaseName(c));
        }
        Unwind(config, pending);
        error := Some(CommandFailed);
        return;
      }
      CreateReleaseDir(ReleaseName(c));
      if fault.FinalizeFails? && c.groupWritable {
        Unwind(config, pending);
        error := Some(CommandFailed);
        return;
      }
      // symlink
      error := Cutover(config, fault, linkBack);
    }

    method Cutover(config: Config, fault: Fault, linkBack: Compensation) returns (error: Option<TaskError>)
      requires Valid()
      modifies this
      ensures Valid()
      ensures Outcome(State(), error) == CutoverPhase(config, old(State()), fault, linkBack)
    {
      var pending := [RemoveNewRelease, linkBack];
      if fault.LinkFails? {
        if fault.unlinked {
          current := None;
        }
        Unwind(config, pending);
        error := Some(CommandFailed);
        return;
      }
      current := None;
      current := LatestRelease(config, listing);
      if fault.CopyFails? {
        Unwind(config, pending);
        error := Some(CommandFailed);
        return;
      }
      error := None;
    }

    /** deploy:update as the recipe writes it. */
    method Update(c: Config, fault: Fault) returns (config: Config, error: Option<TaskError>)
      requires Valid()
      modifies this
      ensures Valid()
      ensures UpdateRun(config, State(), error) == Tasks.Update(c, old(State()), fault)
    {
      config, error := Transaction(c, fault, RelinkPrevious);
    }

    /** deploy:update with symlink's compensation restoring the link target
        read before the cutover. */
    method UpdateRestoring(c: Config, fault: Fault) returns (config: Config, error: Option<TaskError>)
      requires Valid()
      modifies this
      ensures Valid()
      ensures UpdateRun(config, State(), error) == Tasks.UpdateRestoring(c, old(State()), fault)
    {
      var saved := current;   // readlink current_path
      config, error := Transaction(c, fault, RestoreLink(saved));
    }
  }
}
