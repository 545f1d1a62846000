/**
  The release directory model: the lazily computed variables that read the
  releases directory of a host. `listing` is the list of entry names that
  `ls -x` prints for `releases_path`, split on white space, in whatever
  order the host lists them.
 */
module ReleaseDir {
  import opened Wrappers
  import opened Strings
  import opened Settings
  import ReleaseNames

  /** `:releases`: the listing, sorted. */
  function Releases(listing: seq<string>): (r: seq<string>)
    ensures Sorted(r)
    ensures multiset(r) == multiset(listing)
  {
    SortSortedPermutation(listing);
    Sort(listing)
  }

  /** Removing names from a listing removes them from its releases and
      leaves the order of the others. */
  lemma ReleasesWithout(listing: seq<string>, d: set<string>)
    ensures Releases(Without(listing, d)) == Without(Releases(listing), d)
  {
    SortWithout(listing, d);
  }

  /** `:current_release`: the path of the last release, nil when there is
      none. */
  function CurrentRelease(c: Config, listing: seq<string>): Option<string>
  {
    var r := Releases(listing);
    if |r| > 0 then Some(Join(ReleasesPath(c), r[|r| - 1])) else None
  }

  /** `:previous_release`: the path of the second-to-last release, nil when
      there are fewer than two. */
  function PreviousRelease(c: Config, listing: seq<string>): Option<string>
  {
    var r := Releases(listing);
    if |r| > 1 then Some(Join(ReleasesPath(c), r[|r| - 2])) else None
  }

  /** `:latest_release`: the new release's path once `:release_name` has
      set `:deploy_timestamped`, else the current release. */
  function LatestRelease(c: Config, listing: seq<string>): Option<string>
  {
    if c.deployTimestamped then Some(ReleasePath(c)) else CurrentRelease(c, listing)
  }

  /** The newest release: the greatest name of the listing. */
  lemma CurrentReleaseIsNewest(c: Config, listing: seq<string>)
    ensures CurrentRelease(c, listing).Some? <==> |listing| > 0
    ensures CurrentRelease(c, listing).Some? ==>
      exists name :: name in listing && CurrentRelease(c, listing) == Some(Join(ReleasesPath(c), name))
        && forall x :: x in listing ==> LessEq(x, name)
  {
    var r := Releases(listing);
    assert |r| == |multiset(r)| == |listing|;
    if |r| > 0 {
      var name := r[|r| - 1];
      assert name in multiset(listing);
      forall x | x in listing ensures LessEq(x, name) {
        assert x in multiset(r);
        var i :| 0 <= i < |r| && r[i] == x;
        if i < |r| - 1 {
          assert LessEq(r[i], r[|r| - 1]);
        }
      }
    }
  }

  /** The release before the newest: when there are at least two, a name of
      the listing that every name other than the newest does not exceed. */
  lemma PreviousReleaseIsSecondNewest(c: Config, listing: seq<string>)
    requires Distinct(listing)
    ensures PreviousRelease(c, listing).Some? <==> |listing| > 1
    ensures PreviousRelease(c, listing).Some? ==>
      var r := Releases(listing);
      exists name :: name in listing && name != r[|r| - 1]
        && PreviousRelease(c, listing) == Some(Join(ReleasesPath(c), name))
        && forall x :: x in listing && x != r[|r| - 1] ==> LessEq(x, name)
  {
    var r := Releases(listing);
    assert |r| == |multiset(r)| == |listing|;
    if |r| > 1 {
      SortDistinct(listing);
      var name := r[|r| - 2];
      assert name in multiset(listing);
      forall x | x in listing && x != r[|r| - 1] ensures LessEq(x, name) {
        assert x in multiset(r);
        var i :| 0 <= i < |r| && r[i] == x;
        if i < |r| - 2 {
          assert LessEq(r[i], r[|r| - 2]);
        }
      }
    }
  }

  /** During a deploy, once the default `:release_name` has been computed,
      `:latest_release` is the new release's path. */
  lemma LatestReleaseDuringDeploy(c: Config, listing: seq<string>)
    requires c.releaseName.None?
    ensures LatestRelease(AfterReleaseName(c), listing) == Some(ReleasePath(c))
  {
  }

  /** Invoked on its own, before any release name was computed,
      `:latest_release` is the current release, and nil when there are no
      releases. */
  lemma {:induction false} LatestReleaseStandalone(c: Config, listing: seq<string>)
    requires !c.deployTimestamped
    ensures LatestRelease(c, listing) == CurrentRelease(c, listing)
    ensures |listing| == 0 ==> LatestRelease(c, listing) == None
  {
    var r := Releases(listing);
    assert |r| == |multiset(r)| == |listing|;
  }

  /** A release name the user sets does not mark the deploy as timestamped,
      so `:latest_release` stays the newest listed release even mid-deploy. */
  lemma LatestReleaseWithOwnName(c: Config, listing: seq<string>)
    requires c.releaseName.Some? && !c.deployTimestamped
    ensures LatestRelease(AfterReleaseName(c), listing) == CurrentRelease(c, listing)
  {
  }

  /** Releases named by the default scheme and created one after another by
      a clock that moves forwards: whatever order the host lists them in,
      `:releases` gives them in creation order. */
  lemma {:induction false} ReleasesInCreationOrder(times: seq<ReleaseNames.Timestamp>, listing: seq<string>)
    requires forall i :: 0 <= i < |times| ==> times[i].Valid()
    requires forall i, j :: 0 <= i < j < |times| ==> ReleaseNames.Before(times[i], times[j])
    requires multiset(listing) == multiset(seq(|times|, i requires 0 <= i < |times| => ReleaseNames.Format(times[i])))
    ensures Releases(listing) == seq(|times|, i requires 0 <= i < |times| => ReleaseNames.Format(times[i]))
  {
    var names := seq(|times|, i requires 0 <= i < |times| => ReleaseNames.Format(times[i]));
    forall i, j | 0 <= i < j < |names| ensures LessEq(names[i], names[j]) {
      ReleaseNames.FormatChronological(times[i], times[j]);
    }
    SortedUnique(Releases(listing), names);
  }
}
