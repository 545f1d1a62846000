/**
  The recipe's configuration. Capistrano keeps settings in a mutable
  registry and declares defaults with `_cset`, which sets a value only when
  the user has not; a default given as a block is computed when first read.
  Here the settings are one record, a user's explicit choice is a `Some`
  field, and each lazily computed variable is a function of the record.
 */
module Settings {
  import opened Wrappers
  import ReleaseNames

  /** `:run_method`: run commands through `sudo` or directly. */
  datatype RunMethod = Sudo | Run

  datatype Config = Config(
    deployTo: string,                   // :deploy_to (the recipe aborts when it is unset)
    versionDir: string,                 // :version_dir, "releases"
    sharedDir: string,                  // :shared_dir, "shared"
    currentDir: string,                 // :current_dir, "current"
    sharedChildren: seq<string>,        // :shared_children, ["config"]
    useSudo: bool,                      // :use_sudo, false
    runMethod: Option<RunMethod>,       // :run_method when the user sets it
    adminRunner: Option<string>,        // :admin_runner, unset by default
    runner: Option<string>,             // :runner, read with the fallback "app"
    keepReleases: Option<int>,          // :keep_releases, read with the fallback 5
    groupWritable: bool,                // :group_writable, true
    releaseName: Option<string>,        // :release_name when the user sets it
    clock: ReleaseNames.Timestamp,      // Time.now.utc when :release_name is first computed
    deployTimestamped: bool)            // :deploy_timestamped, set by computing :release_name

  /** The settings the recipe declares for a user who sets only `:deploy_to`. */
  function Defaults(deployTo: string, clock: ReleaseNames.Timestamp): Config
  {
    Config(deployTo, "releases", "shared", "current", ["config"], false, None, None, None, None, true,
           None, clock, false)
  }

  /** `File.join` of a directory and a name, for names without a leading
      separator: a separator is added unless the directory ends in one. */
  function Join(dir: string, name: string): string
  {
    if |dir| > 0 && dir[|dir| - 1] == '/' then dir + name else dir + "/" + name
  }

  lemma JoinInjective(dir: string, a: string, b: string)
    requires Join(dir, a) == Join(dir, b)
    ensures a == b
  {
    var p := if |dir| > 0 && dir[|dir| - 1] == '/' then dir else dir + "/";
    assert Join(dir, a) == p + a && Join(dir, b) == p + b;
    assert a == (p + a)[|p|..] && b == (p + b)[|p|..];
  }

  function ReleasesPath(c: Config): string { Join(c.deployTo, c.versionDir) }
  function SharedPath(c: Config): string { Join(c.deployTo, c.sharedDir) }
  function CurrentPath(c: Config): string { Join(c.deployTo, c.currentDir) }

  /** `:release_name`: the user's choice, else the deploy time as
      `%Y%m%d%H%M%S`. */
  function ReleaseName(c: Config): string
  {
    match c.releaseName
    case Some(name) => name
    case None => ReleaseNames.Format(c.clock)
  }

  /** The configuration after `:release_name` has been read: computing the
      default sets `:deploy_timestamped`; reading a name the user set does
      not. */
  function AfterReleaseName(c: Config): Config
  {
    if c.releaseName.None? then c.(deployTimestamped := true) else c
  }

  function ReleasePath(c: Config): string { Join(ReleasesPath(c), ReleaseName(c)) }

  /** `:run_method`: the user's choice, else `:sudo` exactly when `:use_sudo`
      is set. */
  function RunMethodOf(c: Config): RunMethod
  {
    match c.runMethod
    case Some(m) => m
    case None => if c.useSudo then Sudo else Run
  }

  /** `fetch(:keep_releases, 5).to_i`. */
  function KeepReleases(c: Config): int
  {
    match c.keepReleases
    case Some(k) => k
    case None => 5
  }

  /** `fetch(:runner, "app")`. */
  function Runner(c: Config): string
  {
    match c.runner
    case Some(r) => r
    case None => "app"
  }

  /** The default release name is fourteen digits. */
  lemma DefaultReleaseNameDigits(c: Config)
    requires c.releaseName.None? && c.clock.Valid()
    ensures |ReleaseName(c)| == 14
    ensures forall i :: 0 <= i < 14 ==> ReleaseNames.IsDigit(ReleaseName(c)[i])
  {
    ReleaseNames.FormatDigits(c.clock);
  }
}
