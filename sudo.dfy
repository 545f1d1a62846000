/**
  `try_sudo` and `try_runner`: choose how a command runs (through `sudo` or
  directly) and as which user. `invoke_command` and `sudo` belong to
  Capistrano; here their calls are returned as values.
 */
module Sudo {
  import opened Wrappers
  import opened Settings

  /** The options Hash: `runAs` is `None` when it has no `:as` key and
      `Some(user)` when it has one (the user may be nil). */
  datatype Options = Options(runAs: Option<Option<string>>)

  /** A Ruby argument: a String, nil, or an options Hash. */
  datatype Arg = Str(text: string) | Nil | Hash(options: Options)

  /** What `try_sudo` does: run the command with `invoke_command`, return
      the `sudo` prefix for embedding in another command, or return "". */
  datatype Action =
    | Invoke(command: string, via: RunMethod, user: Option<string>)
    | SudoPrefix(user: Option<string>)
    | NoPrefix

  datatype SudoError =
    | TooManyArguments   // Ruby's ArgumentError "too many arguments"
    | NotACommand        // a Hash in the command position, which invoke_command cannot run

  /** `options = args.last.is_a?(Hash) ? args.pop : {}`. */
  function SplitOptions(args: seq<Arg>): (Options, seq<Arg>)
  {
    if |args| > 0 && args[|args| - 1].Hash? then (args[|args| - 1].options, args[..|args| - 1])
    else (Options(None), args)
  }

  /** `options.fetch(:as, fetch(:admin_runner, nil))`. */
  function UserFor(c: Config, options: Options): Option<string>
  {
    match options.runAs
    case Some(user) => user
    case None => c.adminRunner
  }

  /** The command is the first positional argument (nil when there is
      none); `args.any?` then raises only for a later argument that is not
      nil. */
  function TrySudo(c: Config, args: seq<Arg>): Result<Action, SudoError>
  {
    var (options, positional) := SplitOptions(args);
    if exists k :: 1 <= k < |positional| && !positional[k].Nil? then Err(TooManyArguments)
    else
      var command := if |positional| > 0 then positional[0] else Nil;
      var user := UserFor(c, options);
      var via := RunMethodOf(c);
      match command
      case Str(text) => Ok(Invoke(text, via, user))
      case Hash(_) => Err(NotACommand)
      case Nil => if via == Sudo then Ok(SudoPrefix(user)) else Ok(NoPrefix)
  }

  /** `try_sudo` with `:as` replaced by `fetch(:runner, "app")`. */
  function TryRunner(c: Config, args: seq<Arg>): Result<Action, SudoError>
  {
    var (options, positional) := SplitOptions(args);
    TrySudo(c, positional + [Hash(options.(runAs := Some(Some(Runner(c)))))])
  }

  /** The common call `try_sudo(command)` or `try_sudo(command, :as => ...)`:
      the command runs through `:run_method` as the explicit `:as` user,
      else `:admin_runner`, else nil. */
  lemma TrySudoCommand(c: Config, command: string, options: Options)
    ensures TrySudo(c, [Str(command)]) == Ok(Invoke(command, RunMethodOf(c), c.adminRunner))
    ensures TrySudo(c, [Str(command), Hash(options)]) ==
      Ok(Invoke(command, RunMethodOf(c), if options.runAs.Some? then options.runAs.value else c.adminRunner))
  {
    assert [Str(command), Hash(options)][..1] == [Str(command)];
  }

  /** Without a command, `try_sudo` gives the `sudo` prefix under `:sudo`
      and "" under `:run`; the method is `:sudo` exactly when `:use_sudo`
      is set, unless the user chose `:run_method`. */
  lemma TrySudoWithoutCommand(c: Config, options: Options)
    requires c.runMethod.None?
    ensures TrySudo(c, []) == if c.useSudo then Ok(SudoPrefix(c.adminRunner)) else Ok(NoPrefix)
    ensures TrySudo(c, [Nil]) == TrySudo(c, [])
    ensures TrySudo(c, [Hash(options)]) ==
      if c.useSudo then Ok(SudoPrefix(UserFor(c, options))) else Ok(NoPrefix)
  {
  }

  /** A positional argument after the command that is not nil raises
      `ArgumentError`; a trailing Hash is the options, not such an argument. */
  lemma TrySudoTooManyArguments(c: Config, args: seq<Arg>, k: nat)
    requires 1 <= k < |args| && !args[k].Nil? && !(k == |args| - 1 && args[k].Hash?)
    ensures TrySudo(c, args) == Err(TooManyArguments)
  {
    var positional := SplitOptions(args).1;
    assert k < |positional| && positional[k] == args[k];
  }

  /** Nil arguments after the command are ignored, with or without options. */
  lemma TrySudoIgnoresNils(c: Config, first: Arg, n: nat, options: Options)
    requires !first.Hash?
    ensures TrySudo(c, [first] + seq(n, _ => Nil)) == TrySudo(c, [first])
    ensures TrySudo(c, [first] + seq(n, _ => Nil) + [Hash(options)]) == TrySudo(c, [first, Hash(options)])
  {
    var nils: seq<Arg> := seq(n, _ => Nil);
    var a := [first] + nils;
    assert forall k :: 1 <= k < |a| ==> a[k] == nils[k - 1];
    var b := a + [Hash(options)];
    assert b[..|b| - 1] == a;
    assert [first, Hash(options)][..1] == [first];
  }

  /** `try_runner(command, nil, ...)` runs the command as `:runner`: the nils
      are ignored. */
  lemma TryRunnerCommand(c: Config, command: string, n: nat)
    ensures TryRunner(c, [Str(command)] + seq(n, _ => Nil)) == Ok(Invoke(command, RunMethodOf(c), Some(Runner(c))))
  {
    var a: seq<Arg> := [Str(command)] + seq(n, _ => Nil);
    var b := a + [Hash(Options(Some(Some(Runner(c)))))];
    assert b[..|b| - 1] == a;
    assert forall k :: 1 <= k < |a| ==> a[k] == Nil;
  }

  /** `try_runner` always runs as `:runner`, whatever `:as` the caller gave. */
  lemma TryRunnerUser(c: Config, args: seq<Arg>)
    ensures TryRunner(c, args).Ok? && (TryRunner(c, args).value.Invoke? || TryRunner(c, args).value.SudoPrefix?)
      ==> TryRunner(c, args).value.user == Some(Runner(c))
    ensures TryRunner(c, args).Err? <==> TrySudo(c, SplitOptions(args).1 + [Hash(Options(None))]).Err?
  {
    var (options, positional) := SplitOptions(args);
    var a := positional + [Hash(options.(runAs := Some(Some(Runner(c)))))];
    assert a[..|a| - 1] == positional;
    var b := positional + [Hash(Options(None))];
    assert b[..|b| - 1] == positional;
  }
}
