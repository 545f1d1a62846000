/**
  `with_env`: set one process environment variable for the duration of a
  block and restore it afterwards, whether or not the block raised.
 */
module Environment {
  import opened Wrappers

  /** What running the block did: the environment it left behind, whether
      it raised, and the value it returned (nil as `None`) when it did not. */
  datatype BlockRun = BlockRun(env: map<string, string>, raised: bool, value: Option<string>)

  function Lookup(env: map<string, string>, name: string): Option<string>
  {
    if name in env then Some(env[name]) else None
  }

  /** `ENV[name] = value`; assigning nil deletes the variable. */
  function Assign(env: map<string, string>, name: string, value: Option<string>): (r: map<string, string>)
    ensures Lookup(r, name) == value
    ensures forall k :: k != name ==> Lookup(r, k) == Lookup(env, k)
  {
    match value
    case Some(v) => env[name := v]
    case None => env - {name}
  }

  /** The process environment, which `ENV` reads and writes in place. */
  class ProcessEnv {
    var vars: map<string, string>

    constructor (vars: map<string, string>)
      ensures this.vars == vars
    {
      this.vars := vars;
    }

    /** The block sees `name` set to `value`; afterwards `name` has its old
        value again (or is absent, if it was), every other variable is as
        the block left it, and the block's exception, if any, propagates.
        When the block returns, its value is the value of `with_env`. */
    method WithEnv(name: string, value: Option<string>, block: map<string, string> -> BlockRun)
      returns (raised: bool, result: Option<string>)
      modifies this
      ensures var run := block(Assign(old(vars), name, value));
        && raised == run.raised
        && result == (if run.raised then None else run.value)
        && Lookup(vars, name) == Lookup(old(vars), name)
        && forall k :: k != name ==> Lookup(vars, k) == Lookup(run.env, k)
    {
      var saved := Lookup(vars, name);
      vars := Assign(vars, name, value);
      var run := block(vars);
      vars := run.env;
      vars := Assign(vars, name, saved);
      raised := run.raised;
      result := if run.raised then None else run.value;
    }
  }
}
