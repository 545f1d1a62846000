# wpify: release management and wp-config parsing, modelled in Dafny

wpify deploys WordPress sites with Capistrano and reads `wp-config.php`
files. This project models its two cores and proves properties of them.

**The deploy recipe** is `lib/wpify/capistrano/recipes/wp.rb`.

- Settings and derived paths:
  - Its settings become one record, `Settings.Config`. A lazily computed
    variable (`_cset` with a block) becomes a function of that record.
  - Evaluating `:release_name` sets `:deploy_timestamped`. That step is the
    function `Settings.AfterReleaseName`.
- Host state and derived releases:
  - A release host is its releases directory, its `current` symlink and the
    directories `deploy:setup` made (`Tasks.HostState`).
  - `:releases`, `:current_release`, `:previous_release` and
    `:latest_release` are functions of that state (module `ReleaseDir`).
- The deploy tasks:
  - `deploy:setup`, `deploy:cleanup`, the rollback tasks, `deploy:symlink`
    and `deploy:update` with its `on_rollback` compensations are specified
    as state transitions in module `Tasks`.
  - They are run in place by the methods of the class `Host.RemoteHost`.
    Each method is proved to produce exactly the transition of its `Tasks`
    function.
- Helpers:
  - `try_sudo` and `try_runner` are in module `Sudo`.
  - `depend`, the aggregation of `deploy:check` and `with_env` are in
    modules `Dependencies` and `Environment`. `depend` is the class
    `Registry` and `with_env` the class `ProcessEnv`; both change their
    state in place.

**The parser** is `lib/wpify/parser.rb`.

- Matching and the configuration map:
  - Its two regular expressions become a deterministic token matcher
    (module `WpConfig`). Both patterns are proved unambiguous, so the matcher
    finds exactly the matches `String#scan` finds: leftmost first, each
    search resuming where the previous match ended.
  - Storing the matches under downcased keys, file after file, is the
    function `WpConfig.ParseFiles`.
- The class `Parser.Parser` keeps `options`, `files` and `wpconfig`.
  - Its constructor splits the arguments.
  - `Parse` fills `wpconfig` in place with two nested loops.
  - Both are proved to compute `ParseFiles`.
- The file system is a map from path to text, and a missing key is a file
  that does not exist.

Supporting modules:

- `Strings`: Ruby's string order, insertion sort, Ruby's array difference.
- `ReleaseNames`: `strftime("%Y%m%d%H%M%S")` names and their order.
- `Wrappers`: `Option` and `Result`.

Three behaviours of the recipe that the model makes explicit:

- **Standalone `deploy:symlink` with no releases** (wp.rb:72-77,
  wp.rb:274). `latest_release` is nil and interpolates to nothing, and the
  shell drops the empty word, so `ln -s` receives `current_path` as its
  only operand. `rm -f` has removed the `current_path` link, and `ln`
  makes its link named `current` in the remote shell's working directory
  instead. `Tasks.SymlinkStandalone` states the effect on the modelled
  layout: after it, `current` is `None`.
- **`deploy:cleanup` and the live release** (wp.rb:377-388). Cleanup never
  looks at `current`. When `current` points at an old release, cleanup can
  delete it (`Tasks.CleanupCanRemoveLiveRelease`).
- **A negative `:keep_releases`** (wp.rb:378-384). It raises
  (`releases.last(-1)`) before anything is removed
  (`Tasks.CleanupNegativeKeep`).

## Model

| member | source | states |
|---|---|---|
| ReleaseNames.FormatDigits | lib/wpify/capistrano/recipes/wp.rb:50 | a release name made from a valid timestamp is exactly 14 decimal digits |
| ReleaseNames.FormatChronological | lib/wpify/capistrano/recipes/wp.rb:50 | for valid timestamps, the string order of their release names is their chronological order, and equal names mean equal timestamps |
| Settings.DefaultReleaseNameDigits | lib/wpify/capistrano/recipes/wp.rb:50 | when the user sets no `:release_name`, the name is the 14-digit timestamp of the clock |
| Settings.JoinInjective | lib/wpify/capistrano/recipes/wp.rb:57-60 | `File.join` of one directory with two names gives one path only when the names are equal |
| Tasks.AfterReleaseNameKeeps | lib/wpify/capistrano/recipes/wp.rb:50 | reading `:release_name` does not change the release name or paths, and sets `:deploy_timestamped` when the name is the timestamp |
| ReleaseDir.Releases | lib/wpify/capistrano/recipes/wp.rb:62 | `:releases` is sorted in ascending string order and is a permutation of the listing |
| Strings.SortSortedPermutation | lib/wpify/capistrano/recipes/wp.rb:62 | `sort` returns an ascending permutation of its input |
| Strings.SortedUnique | lib/wpify/capistrano/recipes/wp.rb:62 | two sorted lists with the same elements are equal, so `:releases` does not depend on the order `ls` prints |
| ReleaseDir.CurrentReleaseIsNewest | lib/wpify/capistrano/recipes/wp.rb:63 | `:current_release` exists exactly when the listing is non-empty, and it is the path of the greatest name |
| ReleaseDir.PreviousReleaseIsSecondNewest | lib/wpify/capistrano/recipes/wp.rb:64 | `:previous_release` exists exactly when there are at least two releases, and it is the path of the greatest name but one |
| ReleaseDir.ReleasesInCreationOrder | lib/wpify/capistrano/recipes/wp.rb:49-50 | releases named by increasing timestamps are listed by `:releases` in creation order |
| ReleaseDir.LatestReleaseDuringDeploy | lib/wpify/capistrano/recipes/wp.rb:77 | once the timestamped `:release_name` has been read, `:latest_release` is the new `release_path` |
| ReleaseDir.LatestReleaseStandalone | lib/wpify/capistrano/recipes/wp.rb:72-77 | without `:deploy_timestamped`, `:latest_release` is `:current_release`, which is nil when there are no releases |
| ReleaseDir.LatestReleaseWithOwnName | lib/wpify/capistrano/recipes/wp.rb:77 | with a user-chosen `:release_name`, `:deploy_timestamped` stays unset and `:latest_release` stays `:current_release` |
| Sudo.TrySudoCommand | lib/wpify/capistrano/recipes/wp.rb:140-148 | `try_sudo(cmd)` runs the command through `:run_method` as the explicit `:as` user, else `:admin_runner` |
| Sudo.TrySudoWithoutCommand | lib/wpify/capistrano/recipes/wp.rb:145-153 | without a command, `try_sudo` returns the sudo prefix when `:use_sudo` is set and "" otherwise; a nil command is no command |
| Sudo.TrySudoTooManyArguments | lib/wpify/capistrano/recipes/wp.rb:141-143 | a positional argument after the command that is not nil raises ArgumentError (`args.any?`); a trailing Hash is the options |
| Sudo.TrySudoIgnoresNils | lib/wpify/capistrano/recipes/wp.rb:141-143 | nil arguments after the command do not raise and change nothing, with or without options: `try_sudo("ls", nil)` is `try_sudo("ls")` |
| Sudo.TryRunnerCommand | lib/wpify/capistrano/recipes/wp.rb:158-162 | `try_runner(cmd)`, with any number of nils after it, runs the command through `:run_method` as `:runner` |
| Sudo.TryRunnerUser | lib/wpify/capistrano/recipes/wp.rb:158-162 | `try_runner` runs as `:runner` whatever `:as` the caller passed, and fails exactly when `try_sudo` of the same positional arguments fails |
| Environment.Assign | lib/wpify/capistrano/recipes/wp.rb:103 | assigning `ENV[name]` (nil deletes) changes that variable and no other |
| Environment.ProcessEnv.WithEnv | lib/wpify/capistrano/recipes/wp.rb:102-107 | the block sees the new value; afterwards the variable has its old value again, every other variable is as the block left it, and the block's exception propagates; when the block returns, `with_env` returns the block's value (what `real_revision` at wp.rb:45 reads back) |
| Dependencies.AddCallAppends | lib/wpify/capistrano/recipes/wp.rb:92-98 | `depend` appends its arguments to the list of its location and type and leaves every other list unchanged |
| Dependencies.AddCallLocations | lib/wpify/capistrano/recipes/wp.rb:94 | a new location is added at the end of the Hash and a known one keeps its place |
| Dependencies.Registry.Depend | lib/wpify/capistrano/recipes/wp.rb:92-98 | `depend` updates the recorded table in place, appending to one list only |
| Dependencies.PlanCovers | lib/wpify/capistrano/recipes/wp.rb:406-417 | `deploy:check` checks every recorded call, and adds the gem-command check for a recorded `gem` |
| Dependencies.FailingMessagesExact | lib/wpify/capistrano/recipes/wp.rb:423-425 | the messages printed are those of the failed checks, and there are none exactly when every check passed |
| Dependencies.FailingMessagesInOrder | lib/wpify/capistrano/recipes/wp.rb:423-425 | one line per failed check, in check order: the messages of two runs of checks concatenate, and one check contributes its message exactly when it fails |
| Dependencies.AggregateReport | lib/wpify/capistrano/recipes/wp.rb:419-427 | the check passes exactly when every check passes, and otherwise reports every failed check's message and no other |
| Dependencies.RunAllIndex | lib/wpify/capistrano/recipes/wp.rb:413-415 | each planned check is run once, in order |
| Dependencies.CheckReportsFailedDependency | lib/wpify/capistrano/recipes/wp.rb:403-427 | a recorded dependency whose probe fails makes `deploy:check` fail and print its message |
| Tasks.SetupCreatesLayout | lib/wpify/capistrano/recipes/wp.rb:193-197 | setup creates the deploy root, the releases and shared directories and every shared child; it keeps every release and `current`, and running it again changes nothing |
| Tasks.CleanupVictimsOldest | lib/wpify/capistrano/recipes/wp.rb:384-385 | the releases removed are none when `keep` covers them all, else exactly the oldest `|releases| - keep` |
| Tasks.CleanupRetainsNewest | lib/wpify/capistrano/recipes/wp.rb:377-388 | cleanup keeps exactly the newest `min(keep, |releases|)` releases, so `keep = 0` removes all; `current` and other directories are untouched |
| Tasks.CleanupNegativeKeep | lib/wpify/capistrano/recipes/wp.rb:378-384 | a negative `:keep_releases` raises ArgumentError and removes nothing |
| Tasks.CleanupIgnoresCurrent | lib/wpify/capistrano/recipes/wp.rb:377-388 | the outcome of cleanup does not depend on where `current` points |
| Tasks.CleanupCanRemoveLiveRelease | lib/wpify/capistrano/recipes/wp.rb:377-388 | with `keep_releases = 1` and `current` at the older of two releases, cleanup deletes the live release and leaves `current` dangling |
| Tasks.CleanupScenario | lib/wpify/capistrano/recipes/wp.rb:377-388 | three day releases and `keep_releases = 2`: only the oldest is removed |
| Tasks.RollbackWithoutPrior | lib/wpify/capistrano/recipes/wp.rb:331-337 | with fewer than two releases, rollback aborts "no prior release" and changes nothing |
| Tasks.RollbackCleanupKeepsLive | lib/wpify/capistrano/recipes/wp.rb:344-346 | rollback:cleanup never removes the release `current` points at, and never moves `current` |
| Tasks.RollbackToPrevious | lib/wpify/capistrano/recipes/wp.rb:364-367 | with at least two releases, rollback points `current` at `releases[-2]`, removes exactly `releases[-1]`, and `current` is again the newest release |
| Tasks.SymlinkStandalone | lib/wpify/capistrano/recipes/wp.rb:274 | run on its own, symlink points `current` at the newest release, removes the link when there is none, and touches no release |
| Tasks.UpdateSucceeds | lib/wpify/capistrano/recipes/wp.rb:211-216 | a deploy where nothing raises adds the new release and points `current` at it; with a clock past every release name, that is the new `:current_release` |
| Tasks.PreCutoverFailureRestores | lib/wpify/capistrano/recipes/wp.rb:230-234 | when update_code raises, removing `release_path` restores the host exactly |
| Tasks.PostCutoverFailure | lib/wpify/capistrano/recipes/wp.rb:265-274 | when symlink raises, the host is the state at the failure with symlink's compensation and then update_code's applied, last registered first |
| Tasks.PreviousAfterCreate | lib/wpify/capistrano/recipes/wp.rb:63-64 | after a new release named past every other, the old `:current_release` becomes `:previous_release` |
| Tasks.UpdateFailureRestores | lib/wpify/capistrano/recipes/wp.rb:203-216 | a failed deploy leaves the host as it was when update_code failed, or when there was a previous release and `current` was the newest one |
| Tasks.FirstDeployLeavesDanglingCurrent | lib/wpify/capistrano/recipes/wp.rb:266-272 | on a first deploy whose last step raises, the new release is removed but `current` still points at it |
| Tasks.UpdateRestoringRestores | lib/wpify/capistrano/recipes/wp.rb:203-216 | when symlink's compensation restores the link target it replaced, every failed deploy leaves the host exactly as it was |
| Tasks.UpdateRestoringAgrees | lib/wpify/capistrano/recipes/wp.rb:211-216 | the corrected transaction does what the recipe does when nothing raises |
| Host.RemoteHost.Setup | lib/wpify/capistrano/recipes/wp.rb:193-197 | running setup in place gives the host `Tasks.Setup` of its old state |
| Host.RemoteHost.RemoveReleaseDirs | lib/wpify/capistrano/recipes/wp.rb:387 | `rm -rf` of release directories removes exactly those names from the listing |
| Host.RemoteHost.Cleanup | lib/wpify/capistrano/recipes/wp.rb:377-388 | running cleanup in place gives `Tasks.Cleanup` of the old state and its error |
| Host.RemoteHost.RollbackRevision | lib/wpify/capistrano/recipes/wp.rb:331-337 | running rollback:revision in place gives `Tasks.RollbackRevision` of the old state |
| Host.RemoteHost.RollbackCleanup | lib/wpify/capistrano/recipes/wp.rb:344-346 | running rollback:cleanup in place gives `Tasks.RollbackCleanup` of the old state |
| Host.RemoteHost.Rollback | lib/wpify/capistrano/recipes/wp.rb:364-367 | revision then cleanup in place gives `Tasks.Rollback` of the old state |
| Host.RemoteHost.Symlink | lib/wpify/capistrano/recipes/wp.rb:274 | relinking `current` in place gives `Tasks.Symlink` of the old state |
| Host.RemoteHost.CreateReleaseDir | lib/wpify/capistrano/recipes/wp.rb:232 | the new release directory is added to the listing once |
| Host.RemoteHost.Compensate | lib/wpify/capistrano/recipes/wp.rb:266-272 | a compensation run in place gives `Tasks.Compensate` of the old state |
| Host.RemoteHost.Unwind | lib/wpify/capistrano/recipes/wp.rb:212-215 | the registered compensations run last first, giving `Tasks.Unwind` of the old state |
| Host.RemoteHost.Transaction | lib/wpify/capistrano/recipes/wp.rb:211-234 | update_code then symlink in a transaction give `Tasks.UpdateWith` of the old state |
| Host.RemoteHost.Cutover | lib/wpify/capistrano/recipes/wp.rb:265-277 | the symlink step in place gives `Tasks.CutoverPhase` of the old state |
| Host.RemoteHost.Update | lib/wpify/capistrano/recipes/wp.rb:211-216 | deploy:update in place gives `Tasks.Update` of the old state |
| Host.RemoteHost.UpdateRestoring | lib/wpify/capistrano/recipes/wp.rb:211-216 | the corrected deploy:update in place gives `Tasks.UpdateRestoring` of the old state |
| WpConfig.ConstantUnambiguous | lib/wpify/parser.rb:44 | every repetition in the constant pattern is followed by a token that cannot start with a character it repeats, so the pattern has one way to match |
| WpConfig.VarUnambiguous | lib/wpify/parser.rb:39 | the same for the variable pattern: `\w+` cannot overrun `\s*=` and `[^'"]+` stops at the first quote |
| WpConfig.MatchTokensSound | lib/wpify/parser.rb:38-45 | whatever the matcher accepts is an instance of the pattern's tokens, and the captures and end are those of that instance |
| WpConfig.MatchTokensComplete | lib/wpify/parser.rb:38-45 | every instance of an unambiguous pattern is accepted, with its captures and its end |
| WpConfig.MatchAt | lib/wpify/parser.rb:38-45 | a match starts with the pattern's lead character, is non-empty, and its two captures are non-empty and free of quotes; a variable name is made of word characters |
| WpConfig.MatchAtInstance | lib/wpify/parser.rb:38-45 | at a position holding an instance of the pattern, the match is that instance |
| WpConfig.ScanFinds | lib/wpify/parser.rb:29 | `scan` reports the first instance of the pattern and then resumes after it |
| WpConfig.ScanMatch | lib/wpify/parser.rb:29 | the leftmost match is the first reported, and the search resumes at its end |
| WpConfig.ScanNone | lib/wpify/parser.rb:29-30 | a text without the pattern's lead character yields no match |
| WpConfig.Downcase | lib/wpify/parser.rb:29-30 | `downcase` keeps the length and lower-cases each ASCII capital |
| WpConfig.DowncaseLower | lib/wpify/parser.rb:29-30 | a downcased name has no capital, downcasing is idempotent, and a name without capitals is its own key |
| WpConfig.DowncaseWord | lib/wpify/parser.rb:30 | the key of a variable is still made of word characters |
| WpConfig.StoreLast | lib/wpify/parser.rb:29-30 | the value stored under a key is that of its last assignment |
| WpConfig.StoreOthers | lib/wpify/parser.rb:29-30 | a key no assignment names keeps its earlier value, or stays absent |
| WpConfig.StoreKeys | lib/wpify/parser.rb:29-30 | the keys stored are the earlier keys and the downcased assigned names |
| WpConfig.StoreConcat | lib/wpify/parser.rb:29-30 | storing two runs of assignments is storing them one after the other |
| WpConfig.FileConstantsThenVariables | lib/wpify/parser.rb:29-30 | a file stores all its constants first, then all its variables |
| WpConfig.VariableOverridesConstant | lib/wpify/parser.rb:29-30 | a variable wins over a constant of the same key in the same file, wherever each one is written |
| WpConfig.ParseFilesEntries | lib/wpify/parser.rb:23-33 | the map is every file's assignments stored in argument order |
| WpConfig.MissingFileIgnored | lib/wpify/parser.rb:27 | a file that does not exist contributes nothing |
| WpConfig.ParseFilesKeys | lib/wpify/parser.rb:23-33 | the keys are exactly the downcased names the files assign |
| WpConfig.ParseFilesLast | lib/wpify/parser.rb:23-33 | the value under a key is that of the last assignment to it in the last file that assigns it |
| WpConfig.ParseFilesClean | lib/wpify/parser.rb:23-33 | every key is lower case, and every value is non-empty and free of quotes |
| WpConfig.LaterFileWins | lib/wpify/parser.rb:25-31 | on a key both assign, later files win; a key only earlier files assign keeps their value |
| WpConfig.DefineRoundTrip | lib/wpify/parser.rb:42-44 | scanning `define('<name>', '<value>');` gives back that name and value |
| WpConfig.AssignRoundTrip | lib/wpify/parser.rb:37-39 | scanning `$<name> = "<value>";` gives back that name and value |
| WpConfig.QuotesNeedNotMatch | lib/wpify/parser.rb:39-44 | the opening and closing quotes around a name or value may differ, and the statement still matches |
| WpConfig.SingleEntryFile | lib/wpify/parser.rb:23-33 | a file whose scans give one assignment stores one key |
| WpConfig.TwoEntryFile | lib/wpify/parser.rb:23-33 | a file whose scans give two assignments stores both keys, the second last |
| WpConfig.ConstantInstanceQuotes | lib/wpify/parser.rb:44 | every match of the constant pattern holds four quote characters |
| WpConfig.ConstantMatchQuotes | lib/wpify/parser.rb:44 | no constant match starts where fewer than four quote characters remain |
| WpConfig.ConstantScanQuotes | lib/wpify/parser.rb:29 | text with fewer than four quote characters yields no constant |
| WpConfig.AssignQuotes | lib/wpify/parser.rb:37-39 | `$<name> = "<value>";` holds exactly two quote characters |
| WpConfig.AssignHasNoConstant | lib/wpify/parser.rb:29 | no variable assignment contains a constant definition, whatever its name and value |
| WpConfig.ConstantThenFewQuotes | lib/wpify/parser.rb:29 | a constant definition followed by text with fewer than four quotes is the only constant reported |
| WpConfig.ScanLast | lib/wpify/parser.rb:29-30 | a match that ends the text, after text without the pattern's lead character, is the only one reported |
| Parser.SplitArgsOptions | lib/wpify/parser.rb:15-18 | a trailing Hash is the options and never a file; without one the options are empty; the files keep their order |
| Parser.PathsMembers | lib/wpify/parser.rb:17 | a text is among the file names exactly when a file argument with that text is |
| Parser.PathsOfFiles | lib/wpify/parser.rb:17 | when every argument is a file name, the names are the arguments' texts, in order |
| Parser.Parser.constructor | lib/wpify/parser.rb:15-19 | the constructor splits the arguments, keeps only file names in `files`, and leaves `wpconfig` equal to `ParseFiles` of those names |
| Parser.Parser.Parse | lib/wpify/parser.rb:23-33 | the nested loops reset `wpconfig` and fill it with `ParseFiles` of the file names, returning it |
| Parser.Parser.StoreEach | lib/wpify/parser.rb:29 | one `scan(...).each` block stores every match, in order, under its downcased name |
| Parser.Parser.Load | lib/wpify/parser.rb:6-9 | `Parser.load` returns `ParseFiles` of the file arguments, with lower-case keys and non-empty quote-free values |
| Parser.NoFilesNoEntries | lib/wpify/parser.rb:24-27 | with no file arguments, or only missing files, the map is empty whatever the options |
| Parser.DefineFile | lib/wpify/parser.rb:42-44 | a file holding one `define` statement stores the downcased name with the value and nothing else |
| Parser.AssignFile | lib/wpify/parser.rb:37-39 | a file holding one variable assignment stores the downcased name with the value and nothing else, for every well-formed name and value |
| Parser.DefineThenAssignConstants | lib/wpify/parser.rb:29 | in a `define` line followed by a variable line, the constant scan finds only the constant |
| Parser.DefineThenAssignVariables | lib/wpify/parser.rb:30 | in a `define` line followed by a variable line, the variable scan finds only the variable, when the constant's name and value contain no `$` |
| Parser.DefineThenAssignEntries | lib/wpify/parser.rb:28-30 | a `define` line followed by a variable line yields the constant, then the variable, and nothing else |
| Parser.DefineThenAssignFile | lib/wpify/parser.rb:23-33 | such a file stores both downcased keys with their values, the variable's last |
| Parser.DefineExample | lib/wpify/parser.rb:42-44 | `define('DB_NAME', 'wordpress');` stores `wordpress` under `db_name` |
| Parser.AssignExample | lib/wpify/parser.rb:37-39 | `$table_prefix = "wp_";` stores `wp_` under `table_prefix` |

## Left out

- Command transport. `run`, `capture`, `sudo`, `invoke_command`, `put`,
  `top.upload`, `run_locally` and the pty option are left out. Their
  effects become host-state transitions. Only within `deploy:update` can a
  command fail: a `Tasks.Fault` names the step that raises.
- `Tasks.Setup`: a failing `mkdir -p` is not modelled; setup always
  succeeds. The `chmod g+w` of the layout directories when
  `:group_writable` is set (wp.rb:197) is left out too, because the model
  has no file permissions.
- `Tasks.Cleanup`: a failing `rm -rf` is not modelled; the only error is
  the negative `:keep_releases`.
- `ReleaseDir.Releases`: `capture("ls -x ...")` raising, for example
  before setup has created `releases_path`, is not modelled; the listing
  is always a list of names, empty when there are no releases.
- `Settings.KeepReleases`: `:keep_releases` is an integer or unset.
  `to_i` of a non-numeric string, which gives 0, is not represented.
- `Settings.Runner`: `:runner` is a name or unset. An explicit
  `set :runner, nil`, which makes `fetch` return nil and so passes
  `:as => nil` to `try_sudo`, is not represented; `Sudo.TryRunnerUser`
  holds for the settings the model can express.
- `ReleaseDir.LatestRelease`: `:deploy_timestamped` is a boolean that is
  true exactly when the variable exists. `exists?` is also true after
  `set :deploy_timestamped, false`, which the model does not represent.
- Capistrano's `transaction` and `on_rollback` engine is not in this
  repository. The model assumes it runs the registered compensations
  last-registered first, once each (`Tasks.Unwind`).
- Code acquisition and SCM calls are left out: `strategy.deploy!`,
  `strategy.check!`, `source.head`, `query_revision`, `diff`, `log` and
  `next_revision`.
  - `strategy.deploy!` only creates the release directory
    (`Tasks.CreateRelease`) or raises.
  - The strategy's own dependency results are a parameter of
    `Dependencies.Check`.
  - The probes that test a dependency are a function parameter.
- The REVISION readers (wp.rb:66-68) are file I/O and are left out.
- The WordPress tasks are network and file copies and are left out: the
  WordPress download in setup (wp.rb:199-200), `finalize_update`'s chmod
  beyond its ability to raise, `wp_links`, `wp_copy_content` beyond its
  ability to raise (wp.rb:280-298), `upload`, `pending`, the maintenance
  page, the database and file sync tasks (wp.rb:451-608). The last group
  includes `sync_untracked_plugins`.
- Logging, `Benchmark` timing, `Dir[...]` globbing and `puts` output are
  left out. `deploy:check` returns its report as a value.
- Capistrano's role filtering (`:except => { :no_release => true }`) is
  left out. One host is modelled, and `capture` reads the first host's
  listing.
- `Settings`: lazy variables are evaluated on the state at the moment of
  use. Capistrano caches a lazy value at its first read. The two agree in
  every modelled flow, because the listing is not changed between the
  first read and later reads within a task.
- `File.join` is modelled for names without a leading separator only.
- The parser's `File.expand_path`, `File.exist?` and `File.read` are left
  out. The file system is a map from path to text, and expansion is
  assumed already done. A file whose bytes are invalid in its encoding
  makes `scan` raise ArgumentError; the model's text is already a sequence
  of characters, so that error is not modelled.
- `WpConfig.Downcase`: ASCII capitals only. Ruby's Unicode case mapping
  is out of scope.
- Ruby's regular-expression engine is out of scope. Only the two fixed
  patterns are matched, by a hand-written matcher proved to have one way
  to match each.
- Keys are strings rather than Ruby Symbols.
- `Tasks.Symlink`: with no releases, the link `ln -s` makes in the remote
  shell's working directory (pointing at `current_path`) is not modelled,
  nor its failure when that directory already holds a `current`; when the
  working directory is `deploy_to` that link is `current_path` pointing at
  itself. The model assumes another working directory, so `current` is
  absent afterwards.
- `Parser.Parser.constructor`: requires that only the last argument may be
  a Hash. The Ruby code would pass a Hash in another position to
  `File.expand_path`, which raises TypeError.
- `Sudo.TrySudo`: a Hash in the command position is the error
  `NotACommand`. Capistrano's `invoke_command` is not part of this model.
- `Parser.DefineExample`, `Parser.AssignExample`: the file text is written
  with `WpConfig.DefineStatement` and `WpConfig.AssignStatement`. Those
  functions spell out `define('<name>', '<value>');` and
  `$<name> = "<value>";`. They are not stated as literal strings.
- `Parser.DefineFile`, `Parser.DefineThenAssignVariables`,
  `Parser.DefineThenAssignEntries`, `Parser.DefineThenAssignFile`: these
  require that the constant's name and
  value contain no `$`. A `$` there can start a variable match inside the
  `define` statement: `define('$a=', ';');` holds `$a=', ';`, which the
  variable pattern matches with name `a` and value `, `.

## Findings

| source | as written | input that shows it | evidently intended | confidence | as-written member | corrected member |
|---|---|---|---|---|---|---|
| lib/wpify/capistrano/recipes/wp.rb:266-272 | symlink's `on_rollback` relinks `previous_release` and skips the relink when there is none | a first deploy (no releases) whose `wp_copy_content` raises after the link is made: update_code's compensation removes the new release, and `current` still points at the removed directory | the doc string of `deploy:update` (wp.rb:203-210): a failed update leaves the system in the state it had before; restoring the link target that symlink replaced does so for every failure | not executed | Tasks.FirstDeployLeavesDanglingCurrent | Tasks.UpdateRestoringRestores |
