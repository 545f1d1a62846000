/**
  The deploy tasks as transitions of one host's state: the names in the
  releases directory, the target of the `current` symlink and the
  directories `deploy:setup` made. Each shell command the tasks run is
  modelled by its effect on this state. The class in module Host runs these
  steps in place; the functions here are its specification.
 */
module Tasks {
  import opened Wrappers
  import opened Strings
  import opened Settings
  import opened ReleaseDir

  /** `listing`: the entries of `releases_path`; `current`: the target of
      the `current_path` symlink, `None` when there is no link; `dirs`: the
      directories created by `deploy:setup`. */
  datatype HostState = HostState(listing: seq<string>, current: Option<string>, dirs: set<string>)

  /** A directory holds each name once. */
  predicate Wf(s: HostState)
  {
    Distinct(s.listing)
  }

  datatype TaskError =
    | NegativeKeepReleases   // `releases.last(count)` with a negative count raises ArgumentError
    | NoPriorRelease         // rollback:revision aborts: "there is no prior release"
    | CommandFailed          // a step of deploy:update raised

  /** The state a task leaves and the error it raised, if any. */
  datatype Outcome = Outcome(after: HostState, error: Option<TaskError>)

  /** `rm -rf` of release directories. */
  function RemoveReleases(s: HostState, names: set<string>): HostState
  {
    s.(listing := Without(s.listing, names))
  }

  lemma RemoveReleasesWf(s: HostState, names: set<string>)
    requires Wf(s)
    ensures Wf(RemoveReleases(s, names))
  {
    WithoutDistinct(s.listing, names);
  }

  lemma WithoutKeeps<T>(s: seq<T>, d: set<T>, x: T)
    requires x in s && x !in d
    ensures x in Without(s, d)
  {
    WithoutMultiset(s, d);
    assert x in multiset(s);
    assert x in multiset(Without(s, d));
  }

  // ---------------------------------------------------------------------
  // deploy:setup
  // ---------------------------------------------------------------------

  function ChildPaths(shared: string, children: seq<string>): seq<string>
  {
    if children == [] then [] else [Join(shared, children[0])] + ChildPaths(shared, children[1..])
  }

  /** The directories `deploy:setup` creates with `mkdir -p`. */
  function SetupDirs(c: Config): seq<string>
  {
    [c.deployTo, ReleasesPath(c), SharedPath(c)] + ChildPaths(SharedPath(c), c.sharedChildren)
  }

  function Setup(c: Config, s: HostState): HostState
  {
    s.(dirs := s.dirs + Elements(SetupDirs(c)))
  }

  lemma {:induction false} ChildPathsCover(shared: string, children: seq<string>, child: string)
    requires child in children
    ensures Join(shared, child) in ChildPaths(shared, children)
  {
    if children[0] != child {
      ChildPathsCover(shared, children[1..], child);
    }
  }

  /** Setup creates the deploy root, the releases and shared directories and
      every shared child; it is safe to run again: it destroys no release,
      does not touch `current`, and a second run changes nothing. */
  lemma SetupCreatesLayout(c: Config, s: HostState)
    ensures var t := Setup(c, s);
      && {c.deployTo, ReleasesPath(c), SharedPath(c)} <= t.dirs
      && (forall child :: child in c.sharedChildren ==> Join(SharedPath(c), child) in t.dirs)
      && s.dirs <= t.dirs
      && t.listing == s.listing && t.current == s.current
      && Setup(c, t) == t
  {
    var t := Setup(c, s);
    forall child | child in c.sharedChildren ensures Join(SharedPath(c), child) in t.dirs {
      ChildPathsCover(SharedPath(c), c.sharedChildren, child);
    }
  }

  // ---------------------------------------------------------------------
  // deploy:cleanup
  // ---------------------------------------------------------------------

  /** The releases `deploy:cleanup` removes: none when `keep` covers them
      all, else `releases - releases.last(keep)`. */
  function CleanupVictims(keep: int, releases: seq<string>): Result<seq<string>, TaskError>
  {
    if keep >= |releases| then Ok([])
    else if keep < 0 then Err(NegativeKeepReleases)
    else Ok(Difference(releases, releases[|releases| - keep..]))
  }

  function Cleanup(c: Config, s: HostState): Outcome
  {
    match CleanupVictims(KeepReleases(c), Releases(s.listing))
    case Ok(victims) => Outcome(RemoveReleases(s, Elements(victims)), None)
    case Err(e) => Outcome(s, Some(e))
  }

  /** The releases removed are exactly the oldest `|releases| - keep`. */
  lemma CleanupVictimsOldest(keep: int, releases: seq<string>)
    requires Distinct(releases) && 0 <= keep
    ensures CleanupVictims(keep, releases) ==
      if keep >= |releases| then Ok([]) else Ok(releases[..|releases| - keep])
  {
    if keep < |releases| {
      WithoutSuffix(releases, |releases| - keep);
    }
  }

  /** The retention policy: cleanup keeps exactly the newest
      `min(keep, |releases|)` releases, removes the rest (all of them when
      `keep` is 0), and leaves `current` and the other directories alone. */
  lemma CleanupRetainsNewest(c: Config, s: HostState)
    requires Wf(s) && KeepReleases(c) >= 0
    ensures Cleanup(c, s).error == None
    ensures Wf(Cleanup(c, s).after)
    ensures Releases(Cleanup(c, s).after.listing) ==
      if KeepReleases(c) >= |Releases(s.listing)| then Releases(s.listing)
      else Releases(s.listing)[|Releases(s.listing)| - KeepReleases(c)..]
    ensures Cleanup(c, s).after.current == s.current && Cleanup(c, s).after.dirs == s.dirs
  {
    var rs, k := Releases(s.listing), KeepReleases(c);
    if k < |rs| {
      CleanupRemovesOldest(c, s);
      RemoveOldest(s, |rs| - k);
    } else {
      CleanupKeepsAll(c, s);
    }
  }

  lemma CleanupRemovesOldest(c: Config, s: HostState)
    requires Wf(s) && 0 <= KeepReleases(c) < |Releases(s.listing)|
    ensures Cleanup(c, s) ==
      Outcome(RemoveReleases(s, Elements(Releases(s.listing)[..|Releases(s.listing)| - KeepReleases(c)])), None)
  {
    SortDistinct(s.listing);
    CleanupVictimsOldest(KeepReleases(c), Releases(s.listing));
  }

  lemma CleanupKeepsAll(c: Config, s: HostState)
    requires KeepReleases(c) >= |Releases(s.listing)|
    ensures Cleanup(c, s) == Outcome(s, None)
  {
    WithoutNone(s.listing, Elements([]));
  }

  /** Removing the oldest `n` releases leaves the others, in order. */
  lemma RemoveOldest(s: HostState, n: nat)
    requires Wf(s) && n <= |Releases(s.listing)|
    ensures Wf(RemoveReleases(s, Elements(Releases(s.listing)[..n])))
    ensures Releases(RemoveReleases(s, Elements(Releases(s.listing)[..n])).listing) == Releases(s.listing)[n..]
  {
    var d := Elements(Releases(s.listing)[..n]);
    RemoveReleasesWf(s, d);
    SortDistinct(s.listing);
    ReleasesWithout(s.listing, d);
    WithoutPrefix(Releases(s.listing), n);
  }

  /** A negative `:keep_releases` raises before anything is removed. */
  lemma CleanupNegativeKeep(c: Config, s: HostState)
    requires KeepReleases(c) < 0
    ensures Cleanup(c, s) == Outcome(s, Some(NegativeKeepReleases))
  {
    var rs := Releases(s.listing);
    assert |rs| >= 0;
  }

  /** Cleanup never looks at where `current` points. */
  lemma CleanupIgnoresCurrent(c: Config, s: HostState, target: Option<string>)
    ensures Cleanup(c, s.(current := target)) ==
      Outcome(Cleanup(c, s).after.(current := target), Cleanup(c, s).error)
  {
  }

  /** Names of the day releases of the examples below, and their order. */
  lemma FirstDayBeforeSecond()
    ensures Less("20230101000000", "20230102000000")
  {
    var p := "2023010";
    assert "20230101000000" == p + "1000000";
    assert "20230102000000" == p + "2000000";
    LessCommonPrefix(p, "1000000", "2000000");
  }

  lemma SecondDayBeforeThird()
    ensures Less("20230102000000", "20230103000000")
  {
    var p := "2023010";
    assert "20230102000000" == p + "2000000";
    assert "20230103000000" == p + "3000000";
    LessCommonPrefix(p, "2000000", "3000000");
  }

  /** A listing of increasing names is its own `:releases`. */
  lemma IncreasingListing(l: seq<string>)
    requires forall i :: 0 < i < |l| ==> Less(l[i - 1], l[i])
    ensures Sorted(l) && Distinct(l) && Releases(l) == l
  {
    forall i, j | 0 <= i < j < |l| ensures Less(l[i], l[j]) {
      IncreasingAt(l, i, j);
    }
    forall i, j | 0 <= i < j < |l| ensures l[i] != l[j] {
      IncreasingAt(l, i, j);
      LessIrreflexive(l[i]);
    }
    SortOfSorted(l);
  }

  lemma {:induction false} IncreasingAt(l: seq<string>, i: nat, j: nat)
    requires forall i :: 0 < i < |l| ==> Less(l[i - 1], l[i])
    requires i < j < |l|
    ensures Less(l[i], l[j])
    decreases j - i
  {
    if i + 1 < j {
      IncreasingAt(l, i, j - 1);
      LessTransitive(l[i], l[j - 1], l[j]);
    }
  }

  /** So cleanup can remove the live release: when `current` was pointed
      back at an older release, cleanup with `keep_releases = 1` removes it
      and leaves `current` dangling. */
  lemma CleanupCanRemoveLiveRelease(c: Config, s: HostState)
    requires KeepReleases(c) == 1
    requires s.listing == ["20230101000000", "20230102000000"]
    requires s.current == Some(Join(ReleasesPath(c), "20230101000000"))
    ensures Cleanup(c, s).after.current == Some(Join(ReleasesPath(c), "20230101000000"))
    ensures "20230101000000" !in Cleanup(c, s).after.listing
  {
    TwoDays();
    CleanupRetainsNewest(c, s);
    var t := Cleanup(c, s).after;
    assert Releases(t.listing) == s.listing[1..];
    assert multiset(t.listing) == multiset(s.listing[1..]);
    assert "20230101000000" != s.listing[1];
  }

  /** Three releases and `keep_releases = 2`: only the oldest is removed. */
  lemma CleanupScenario(c: Config, s: HostState)
    requires KeepReleases(c) == 2
    requires s.listing == ["20230101000000", "20230102000000", "20230103000000"]
    ensures Releases(Cleanup(c, s).after.listing) == ["20230102000000", "20230103000000"]
  {
    ThreeDays();
    CleanupRetainsNewest(c, s);
    assert s.listing[1..] == ["20230102000000", "20230103000000"];
  }

  /** The listings of the examples are already in order. */
  lemma TwoDays()
    ensures Distinct(["20230101000000", "20230102000000"])
    ensures Releases(["20230101000000", "20230102000000"]) == ["20230101000000", "20230102000000"]
  {
    FirstDayBeforeSecond();
    IncreasingPair("20230101000000", "20230102000000");
  }

  lemma ThreeDays()
    ensures Distinct(["20230101000000", "20230102000000", "20230103000000"])
    ensures Releases(["20230101000000", "20230102000000", "20230103000000"]) ==
      ["20230101000000", "20230102000000", "20230103000000"]
  {
    FirstDayBeforeSecond();
    SecondDayBeforeThird();
    IncreasingTriple("20230101000000", "20230102000000", "20230103000000");
  }

  lemma IncreasingPair(a: string, b: string)
    requires Less(a, b)
    ensures Distinct([a, b]) && Releases([a, b]) == [a, b]
  {
    IncreasingListing([a, b]);
  }

  lemma IncreasingTriple(a: string, b: string, c: string)
    requires Less(a, b) && Less(b, c)
    ensures Distinct([a, b, c]) && Releases([a, b, c]) == [a, b, c]
  {
    IncreasingListing([a, b, c]);
  }

  // ---------------------------------------------------------------------
  // deploy:rollback
  // ---------------------------------------------------------------------

  /** rollback:revision: point `current` at the previous release, or abort. */
  function RollbackRevision(c: Config, s: HostState): Outcome
  {
    match PreviousRelease(c, s.listing)
    case Some(p) => Outcome(s.(current := Some(p)), None)
    case None => Outcome(s, Some(NoPriorRelease))
  }

  /** rollback:cleanup: `if [ readlink current != current_release ]; then
      rm -rf current_release; fi`. When there is no link, `readlink`
      prints nothing, the test is malformed and fails, and nothing is
      removed; when there are no releases, nothing is removed either. */
  function RollbackCleanup(c: Config, s: HostState): HostState
  {
    var r := Releases(s.listing);
    if |r| > 0 && s.current.Some? && s.current.value != Join(ReleasesPath(c), r[|r| - 1])
    then RemoveReleases(s, {r[|r| - 1]})
    else s
  }

  /** deploy:rollback: revision, then cleanup (which an abort skips). */
  function Rollback(c: Config, s: HostState): Outcome
  {
    var revision := RollbackRevision(c, s);
    if revision.error.Some? then revision else Outcome(RollbackCleanup(c, revision.after), None)
  }

  /** With fewer than two releases rollback aborts and changes nothing. */
  lemma RollbackWithoutPrior(c: Config, s: HostState)
    requires |s.listing| < 2
    ensures RollbackRevision(c, s) == Outcome(s, Some(NoPriorRelease))
    ensures Rollback(c, s) == Outcome(s, Some(NoPriorRelease))
  {
    var r := Releases(s.listing);
    assert |r| == |multiset(r)| == |s.listing|;
  }

  /** rollback:cleanup never removes the release `current` points at. */
  lemma RollbackCleanupKeepsLive(c: Config, s: HostState, name: string)
    requires name in s.listing && s.current == Some(Join(ReleasesPath(c), name))
    ensures name in RollbackCleanup(c, s).listing
    ensures RollbackCleanup(c, s).current == s.current
  {
    var r := Releases(s.listing);
    if |r| > 0 && s.current.value != Join(ReleasesPath(c), r[|r| - 1]) {
      assert name != r[|r| - 1];
      WithoutKeeps(s.listing, {r[|r| - 1]}, name);
    }
  }

  /** With at least two releases, rollback points `current` at the
      second-to-last release and removes exactly the last one, so that
      `current` is again the newest remaining release. */
  lemma RollbackToPrevious(c: Config, s: HostState)
    requires Wf(s) && |s.listing| >= 2
    ensures var rs, t := Releases(s.listing), Rollback(c, s).after;
      && Rollback(c, s).error == None
      && Wf(t)
      && t.current == Some(Join(ReleasesPath(c), rs[|rs| - 2]))
      && Releases(t.listing) == rs[..|rs| - 1]
      && t.current == CurrentRelease(c, t.listing)
      && t.dirs == s.dirs
  {
    var rs := Releases(s.listing);
    var n := |rs|;
    assert n == |multiset(rs)| == |s.listing|;
    SortDistinct(s.listing);
    var revised := s.(current := Some(Join(ReleasesPath(c), rs[n - 2])));
    assert RollbackRevision(c, s).after == revised;
    if Join(ReleasesPath(c), rs[n - 2]) == Join(ReleasesPath(c), rs[n - 1]) {
      JoinInjective(ReleasesPath(c), rs[n - 2], rs[n - 1]);
    }
    var d := {rs[n - 1]};
    assert d == Elements(rs[n - 1..]);
    RemoveReleasesWf(revised, d);
    SortWithout(s.listing, d);
    WithoutSuffix(rs, n - 1);
    assert Releases(Without(s.listing, d)) == rs[..n - 1];
  }

  // ---------------------------------------------------------------------
  // deploy:symlink
  // ---------------------------------------------------------------------

  /** `rm -f current && ln -s latest_release current`. With no latest
      release the nil interpolates to nothing and the shell drops the empty
      word, so `ln -s` gets `current_path` as its only operand: it makes a
      link named `current` in the shell's working directory, not at
      `current_path`, which stays removed. */
  function Symlink(c: Config, s: HostState): HostState
  {
    s.(current := LatestRelease(c, s.listing))
  }

  /** Run on its own, symlink points `current` at the newest release, and
      with no releases leaves no link at `current_path`. */
  lemma SymlinkStandalone(c: Config, s: HostState)
    requires !c.deployTimestamped
    ensures Symlink(c, s).current == CurrentRelease(c, s.listing)
    ensures |s.listing| == 0 ==> Symlink(c, s).current == None
    ensures Symlink(c, s).listing == s.listing
  {
    LatestReleaseStandalone(c, s.listing);
  }

  // ---------------------------------------------------------------------
  // deploy:update: update_code and symlink in a transaction
  // ---------------------------------------------------------------------

  /** Where a step of deploy:update raises. */
  datatype Fault =
    | NoFault
    | DeployFails(leftBehind: bool)   // strategy.deploy! raises; leftBehind: the release directory exists
    | FinalizeFails                   // `chmod -R g+w` of the release raises (run only with :group_writable)
    | LinkFails(unlinked: bool)       // `rm -f current && ln -s ...` raises; unlinked: the rm had run
    | CopyFails                       // wp_copy_content raises after the link was made

  /** The actions registered with `on_rollback`, run when a later step
      raises. `RestoreLink` is not in the recipe: it is the corrected
      compensation of the finding below. */
  datatype Compensation =
    | RemoveNewRelease                   // update_code: `rm -rf release_path; true`
    | RelinkPrevious                     // symlink: relink `previous_release`, or warn and skip
    | RestoreLink(saved: Option<string>) // put back the link target read before the cutover

  function Compensate(c: Config, s: HostState, k: Compensation): HostState
  {
    match k
    case RemoveNewRelease => RemoveReleases(s, {ReleaseName(c)})
    case RelinkPrevious =>
      (match PreviousRelease(c, s.listing)
       case Some(p) => s.(current := Some(p))
       case None => s)
    case RestoreLink(saved) => s.(current := saved)
  }

  /** The transaction engine runs the registered compensations from the
      last registered to the first. */
  function Unwind(c: Config, s: HostState, pending: seq<Compensation>): HostState
    decreases |pending|
  {
    if pending == [] then s
    else Unwind(c, Compensate(c, s, pending[|pending| - 1]), pending[..|pending| - 1])
  }

  /** strategy.deploy! materialises the release directory. */
  function CreateRelease(s: HostState, name: string): HostState
  {
    if name in s.listing then s else s.(listing := s.listing + [name])
  }

  lemma CreateReleaseWf(s: HostState, name: string)
    requires Wf(s)
    ensures Wf(CreateRelease(s, name))
  {
    if name !in s.listing {
      var l := s.listing + [name];
      forall i, j | 0 <= i < j < |l| ensures l[i] != l[j] {
        if j == |l| - 1 {
          assert l[i] == s.listing[i];
        } else {
          assert l[i] == s.listing[i] && l[j] == s.listing[j];
        }
      }
    }
  }

  /** Whether a fault makes a step raise: the chmod of finalize_update runs
      only when `:group_writable` is set. */
  predicate Raises(c: Config, fault: Fault)
  {
    fault != NoFault && !(fault.FinalizeFails? && !c.groupWritable)
  }

  datatype UpdateRun = UpdateRun(config: Config, after: HostState, error: Option<TaskError>)

  /** symlink inside the transaction, from the state update_code left:
      `rm -f current && ln -s latest_release current`, then the content copy. */
  function CutoverPhase(c1: Config, created: HostState, fault: Fault, linkBack: Compensation): Outcome
  {
    var linked := created.(current := LatestRelease(c1, created.listing));
    if fault.LinkFails? then
      var unlinked := if fault.unlinked then created.(current := None) else created;
      Outcome(Unwind(c1, unlinked, [RemoveNewRelease, linkBack]), Some(CommandFailed))
    else if fault.CopyFails? then
      Outcome(Unwind(c1, linked, [RemoveNewRelease, linkBack]), Some(CommandFailed))
    else
      Outcome(linked, None)
  }

  /** deploy:update with `linkBack` as the compensation symlink registers. */
  function UpdateWith(c: Config, s: HostState, fault: Fault, linkBack: Compensation): UpdateRun
  {
    var c1 := AfterReleaseName(c);
    var created := CreateRelease(s, ReleaseName(c));
    if fault.DeployFails? then
      var s1 := if fault.leftBehind then created else s;
      UpdateRun(c1, Unwind(c1, s1, [RemoveNewRelease]), Some(CommandFailed))
    else if fault.FinalizeFails? && c.groupWritable then
      UpdateRun(c1, Unwind(c1, created, [RemoveNewRelease]), Some(CommandFailed))
    else
      var cutover := CutoverPhase(c1, created, fault, linkBack);
      UpdateRun(c1, cutover.after, cutover.error)
  }

  /** deploy:update as the recipe writes it. */
  function Update(c: Config, s: HostState, fault: Fault): UpdateRun
  {
    UpdateWith(c, s, fault, RelinkPrevious)
  }

  /** deploy:update with symlink's compensation restoring the link target it
      replaced. */
  function UpdateRestoring(c: Config, s: HostState, fault: Fault): UpdateRun
  {
    UpdateWith(c, s, fault, RestoreLink(s.current))
  }

  lemma WithoutAppended(l: seq<string>, name: string)
    requires name !in l
    ensures Without(l + [name], {name}) == l
    ensures Without(l, {name}) == l
  {
    WithoutConcat(l, [name], {name});
    WithoutNone(l, {name});
    assert Without([name], {name}) == Without([], {name}) == [];
  }

  lemma UnwindOne(c: Config, s: HostState, a: Compensation)
    ensures Unwind(c, s, [a]) == Compensate(c, s, a)
  {
    assert [a][..0] == [];
  }

  lemma UnwindTwo(c: Config, s: HostState, a: Compensation, b: Compensation)
    ensures Unwind(c, s, [a, b]) == Compensate(c, Compensate(c, s, b), a)
  {
    assert [a, b][..1] == [a];
    UnwindOne(c, Compensate(c, s, b), a);
  }

  /** The new release's name does not depend on having been read before. */
  lemma AfterReleaseNameKeeps(c: Config)
    ensures ReleaseName(AfterReleaseName(c)) == ReleaseName(c)
    ensures ReleasesPath(AfterReleaseName(c)) == ReleasesPath(c)
    ensures ReleasePath(AfterReleaseName(c)) == ReleasePath(c)
    ensures c.releaseName.None? ==> AfterReleaseName(c).deployTimestamped
  {
  }

  /** A deploy that raises nowhere adds the new release and points `current`
      at it; when the clock has moved past every existing release name, the
      new release is the last of `:releases`, so `current` is the newest
      release. */
  lemma UpdateSucceeds(c: Config, s: HostState, fault: Fault)
    requires Wf(s) && c.releaseName.None? && ReleaseName(c) !in s.listing
    requires !Raises(c, fault)
    ensures var u := Update(c, s, fault);
      && u.error == None
      && u.config.deployTimestamped
      && Wf(u.after)
      && u.after.listing == s.listing + [ReleaseName(c)]
      && u.after.current == Some(ReleasePath(c))
      && u.after.dirs == s.dirs
      && ((forall x :: x in s.listing ==> Less(x, ReleaseName(c))) ==>
            Releases(u.after.listing) == Releases(s.listing) + [ReleaseName(c)]
            && u.after.current == CurrentRelease(c, u.after.listing))
  {
    var name := ReleaseName(c);
    AfterReleaseNameKeeps(c);
    CreateReleaseWf(s, name);
    if forall x :: x in s.listing ==> Less(x, name) {
      SortAppendGreatest(s.listing, name);
    }
  }

  /** A step before the cutover raised: removing the new release restores
      the host, whatever symlink would have registered. */
  lemma PreCutoverFailureRestores(c: Config, s: HostState, fault: Fault, linkBack: Compensation)
    requires ReleaseName(c) !in s.listing && Raises(c, fault)
    requires fault.DeployFails? || fault.FinalizeFails?
    ensures UpdateWith(c, s, fault, linkBack).error == Some(CommandFailed)
    ensures UpdateWith(c, s, fault, linkBack).after == s
  {
    var c1 := AfterReleaseName(c);
    AfterReleaseNameKeeps(c);
    WithoutAppended(s.listing, ReleaseName(c));
    var created := CreateRelease(s, ReleaseName(c));
    UnwindOne(c1, created, RemoveNewRelease);
    UnwindOne(c1, s, RemoveNewRelease);
  }

  /** A step after update_code raised in symlink or after it: the host is
      the state before the unwind, `before`, with `linkBack` and then the
      removal of the new release applied. */
  lemma PostCutoverFailure(c: Config, s: HostState, fault: Fault, linkBack: Compensation)
    requires ReleaseName(c) !in s.listing
    requires fault.LinkFails? || fault.CopyFails?
    ensures var c1 := AfterReleaseName(c);
      var before :=
        if fault.CopyFails? then
          s.(listing := s.listing + [ReleaseName(c)], current := LatestRelease(c1, s.listing + [ReleaseName(c)]))
        else if fault.unlinked then s.(listing := s.listing + [ReleaseName(c)], current := None)
        else s.(listing := s.listing + [ReleaseName(c)]);
      && UpdateWith(c, s, fault, linkBack).error == Some(CommandFailed)
      && UpdateWith(c, s, fault, linkBack).after ==
           Compensate(c1, Compensate(c1, before, linkBack), RemoveNewRelease)
  {
    var c1 := AfterReleaseName(c);
    var created := CreateRelease(s, ReleaseName(c));
    var linked := created.(current := LatestRelease(c1, created.listing));
    UnwindTwo(c1, linked, RemoveNewRelease, linkBack);
    UnwindTwo(c1, created.(current := None), RemoveNewRelease, linkBack);
    UnwindTwo(c1, created, RemoveNewRelease, linkBack);
  }

  /** The new release and the current release become the second-to-last
      and the last when the new name sorts after every existing one. */
  lemma PreviousAfterCreate(c: Config, s: HostState)
    requires |s.listing| > 0 && forall x :: x in s.listing ==> Less(x, ReleaseName(c))
    ensures ReleaseName(c) !in s.listing
    ensures PreviousRelease(c, s.listing + [ReleaseName(c)]) == CurrentRelease(c, s.listing)
  {
    var name := ReleaseName(c);
    if name in s.listing {
      LessIrreflexive(name);
    }
    SortAppendGreatest(s.listing, name);
    var rs := Releases(s.listing);
    assert |rs| == |multiset(rs)| == |s.listing|;
    assert (rs + [name])[|rs| - 1] == rs[|rs| - 1];
  }

  /** The doc string's promise, where the recipe keeps it: a failed deploy
      leaves the host as it was, provided the new name sorts last and either
      the failure came before the cutover, or there was a previous release
      and `current` pointed at the newest one. */
  lemma UpdateFailureRestores(c: Config, s: HostState, fault: Fault)
    requires Raises(c, fault)
    requires forall x :: x in s.listing ==> Less(x, ReleaseName(c))
    requires fault.LinkFails? || fault.CopyFails? ==>
      |s.listing| > 0 && s.current == CurrentRelease(c, s.listing)
    ensures Update(c, s, fault).error == Some(CommandFailed)
    ensures Update(c, s, fault).after == s
  {
    var name := ReleaseName(c);
    assert name !in s.listing by {
      if name in s.listing {
        LessIrreflexive(name);
      }
    }
    if fault.DeployFails? || fault.FinalizeFails? {
      PreCutoverFailureRestores(c, s, fault, RelinkPrevious);
    } else {
      var c1 := AfterReleaseName(c);
      AfterReleaseNameKeeps(c);
      PostCutoverFailure(c, s, fault, RelinkPrevious);
      PreviousAfterCreate(c, s);
      assert PreviousRelease(c1, s.listing + [name]) == s.current;
      WithoutAppended(s.listing, name);
    }
  }

  /** FINDING, as written: on a first deploy whose last step raises, the
      recipe removes the new release but has no previous release to relink,
      so `current` is left pointing at the removed directory. */
  lemma FirstDeployLeavesDanglingCurrent(c: Config, s: HostState)
    requires s.listing == [] && c.releaseName.None?
    ensures Update(c, s, CopyFails).error == Some(CommandFailed)
    ensures Update(c, s, CopyFails).after.current == Some(ReleasePath(c))
    ensures Update(c, s, CopyFails).after.listing == []
  {
    var c1 := AfterReleaseName(c);
    var name := ReleaseName(c);
    AfterReleaseNameKeeps(c);
    PostCutoverFailure(c, s, CopyFails, RelinkPrevious);
    var before := s.(listing := [name], current := Some(ReleasePath(c)));
    assert s.listing + [name] == [name];
    assert Releases([name]) == [name];
    assert PreviousRelease(c1, [name]) == None;
    assert Compensate(c1, before, RelinkPrevious) == before;
    WithoutAppended([], name);
  }

  /** FINDING, corrected: when symlink's compensation restores the link
      target it replaced, every failed deploy leaves the host exactly as it
      was, with no condition on earlier releases, on `current` or on the
      clock. */
  lemma UpdateRestoringRestores(c: Config, s: HostState, fault: Fault)
    requires ReleaseName(c) !in s.listing && Raises(c, fault)
    ensures UpdateRestoring(c, s, fault).error == Some(CommandFailed)
    ensures UpdateRestoring(c, s, fault).after == s
  {
    if fault.DeployFails? || fault.FinalizeFails? {
      PreCutoverFailureRestores(c, s, fault, RestoreLink(s.current));
    } else {
      AfterReleaseNameKeeps(c);
      PostCutoverFailure(c, s, fault, RestoreLink(s.current));
      WithoutAppended(s.listing, ReleaseName(c));
    }
  }

  /** The corrected transaction does what the recipe does when nothing
      raises. */
  lemma UpdateRestoringAgrees(c: Config, s: HostState, fault: Fault)
    requires !Raises(c, fault)
    ensures UpdateRestoring(c, s, fault) == Update(c, s, fault)
  {
  }
}
