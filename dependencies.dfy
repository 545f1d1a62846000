/**
  Dependencies for `deploy:check`: `depend` records a check under its
  location and type, and `check` runs the strategy's checks and the
  recorded ones and reports pass or the failing messages.
 */
module Dependencies {
  import opened Wrappers

  /** Where a check runs: the invoking machine or the remote hosts. */
  datatype Location = Local | Remote

  /** The `:dependencies` Hash, `location -> type -> [args, ...]`. Ruby's
      Hashes keep their keys in insertion order, so each level is a list of
      entries. */
  datatype TypeEntry = TypeEntry(kind: string, calls: seq<seq<string>>)
  datatype LocationEntry = LocationEntry(location: Location, types: seq<TypeEntry>)
  type Table = seq<LocationEntry>

  function TypeCalls(types: seq<TypeEntry>, kind: string): seq<seq<string>>
  {
    if types == [] then []
    else if types[0].kind == kind then types[0].calls
    else TypeCalls(types[1..], kind)
  }

  /** `deps[location][type]`, or `[]` when either key is missing. */
  function Calls(t: Table, location: Location, kind: string): seq<seq<string>>
  {
    if t == [] then []
    else if t[0].location == location then TypeCalls(t[0].types, kind)
    else Calls(t[1..], location, kind)
  }

  /** `deps[kind] ||= []; deps[kind] << args` on one location's types. */
  function AppendToType(types: seq<TypeEntry>, kind: string, args: seq<string>): seq<TypeEntry>
  {
    if types == [] then [TypeEntry(kind, [args])]
    else if types[0].kind == kind then [types[0].(calls := types[0].calls + [args])] + types[1..]
    else [types[0]] + AppendToType(types[1..], kind, args)
  }

  /** `deps[location] ||= {}` followed by the append above. */
  function AddCall(t: Table, location: Location, kind: string, args: seq<string>): Table
  {
    if t == [] then [LocationEntry(location, [TypeEntry(kind, [args])])]
    else if t[0].location == location then [t[0].(types := AppendToType(t[0].types, kind, args))] + t[1..]
    else [t[0]] + AddCall(t[1..], location, kind, args)
  }

  function Locations(t: Table): seq<Location>
  {
    if t == [] then [] else [t[0].location] + Locations(t[1..])
  }

  lemma {:induction false} AppendToTypeCalls(types: seq<TypeEntry>, kind: string, args: seq<string>, k: string)
    ensures TypeCalls(AppendToType(types, kind, args), k) ==
      if k == kind then TypeCalls(types, kind) + [args] else TypeCalls(types, k)
  {
    if types != [] && types[0].kind != kind {
      AppendToTypeCalls(types[1..], kind, args, k);
    }
  }

  /** `depend` appends its arguments to the list for its location and type
      and leaves every other list as it was. */
  lemma {:induction false} AddCallAppends(t: Table, location: Location, kind: string, args: seq<string>,
                                          l: Location, k: string)
    ensures Calls(AddCall(t, location, kind, args), l, k) ==
      if l == location && k == kind then Calls(t, location, kind) + [args] else Calls(t, l, k)
  {
    if t == [] {
      var single := [LocationEntry(location, [TypeEntry(kind, [args])])];
      assert single[1..] == [] && [TypeEntry(kind, [args])][1..] == [];
      assert AddCall(t, location, kind, args) == single;
      assert Calls(t, location, kind) == [];
      if l == location {
        assert Calls(single, l, k) == TypeCalls([TypeEntry(kind, [args])], k);
        if k == kind {
          assert TypeCalls([TypeEntry(kind, [args])], k) == [args];
          assert Calls(t, location, kind) + [args] == [args];
        } else {
          assert TypeCalls([TypeEntry(kind, [args])], k) == TypeCalls([], k) == [];
        }
      } else {
        assert Calls(single, l, k) == Calls(single[1..], l, k);
      }
    } else if t[0].location == location {
      if l == location {
        AppendToTypeCalls(t[0].types, kind, args, k);
      }
    } else {
      AddCallAppends(t[1..], location, kind, args, l, k);
    }
  }

  /** A new location goes to the end of the Hash; a known one keeps its
      place. */
  lemma {:induction false} AddCallLocations(t: Table, location: Location, kind: string, args: seq<string>)
    ensures Locations(AddCall(t, location, kind, args)) ==
      if location in Locations(t) then Locations(t) else Locations(t) + [location]
  {
    if t != [] && t[0].location != location {
      AddCallLocations(t[1..], location, kind, args);
    }
  }

  /** The recorded dependencies, kept in the configuration and updated in
      place by `depend`. */
  class Registry {
    var dependencies: Table

    constructor ()
      ensures dependencies == []
    {
      dependencies := [];
    }

    method Depend(location: Location, kind: string, args: seq<string>)
      modifies this
      ensures dependencies == AddCall(old(dependencies), location, kind, args)
      ensures forall l, k ::
                Calls(dependencies, l, k) ==
                if l == location && k == kind then Calls(old(dependencies), l, k) + [args]
                else Calls(old(dependencies), l, k)
    {
      var deps := dependencies;
      deps := AddCall(deps, location, kind, args);
      forall l, k {
        AddCallAppends(dependencies, location, kind, args, l, k);
      }
      dependencies := deps;
    }
  }

  // ---------------------------------------------------------------------
  // deploy:check
  // ---------------------------------------------------------------------

  /** One check to run: a type of the dependency DSL at a location, with its
      arguments and, for the `gem` command check, the message `or` sets. */
  datatype CheckSpec = CheckSpec(location: Location, kind: string, args: seq<string>, message: Option<string>)

  /** The outcome of one check. */
  datatype CheckResult = CheckResult(pass: bool, message: string)

  datatype Report = AllPassed | Failed(messages: seq<string>)

  const GemMissing := "`gem' command could not be found. Try setting :gem_command"

  function PlanCalls(location: Location, kind: string, calls: seq<seq<string>>): seq<CheckSpec>
  {
    if calls == [] then [] else [CheckSpec(location, kind, calls[0], None)] + PlanCalls(location, kind, calls[1..])
  }

  function PlanTypes(location: Location, types: seq<TypeEntry>, gemCommand: string): seq<CheckSpec>
  {
    if types == [] then []
    else
      (if types[0].kind == "gem" then [CheckSpec(location, "command", [gemCommand], Some(GemMissing))] else [])
      + PlanCalls(location, types[0].kind, types[0].calls)
      + PlanTypes(location, types[1..], gemCommand)
  }

  /** The checks `check` adds to the strategy's, in the order it adds them:
      per location, per type, a `gem` command check first for the `gem`
      type, then one check per recorded call. */
  function Plan(t: Table, gemCommand: string): seq<CheckSpec>
  {
    if t == [] then [] else PlanTypes(t[0].location, t[0].types, gemCommand) + Plan(t[1..], gemCommand)
  }

  lemma {:induction false} PlanCallsCovers(location: Location, kind: string, calls: seq<seq<string>>, args: seq<string>)
    requires args in calls
    ensures CheckSpec(location, kind, args, None) in PlanCalls(location, kind, calls)
  {
    if calls[0] != args {
      PlanCallsCovers(location, kind, calls[1..], args);
    }
  }

  lemma {:induction false} PlanTypesCovers(location: Location, types: seq<TypeEntry>, gemCommand: string,
                                           kind: string, args: seq<string>)
    requires args in TypeCalls(types, kind)
    ensures CheckSpec(location, kind, args, None) in PlanTypes(location, types, gemCommand)
    ensures kind == "gem" ==> CheckSpec(location, "command", [gemCommand], Some(GemMissing)) in PlanTypes(location, types, gemCommand)
  {
    if types[0].kind == kind {
      PlanCallsCovers(location, kind, types[0].calls, args);
    } else {
      PlanTypesCovers(location, types[1..], gemCommand, kind, args);
    }
  }

  /** Every call recorded with `depend` is checked, and a recorded `gem`
      dependency also checks that the gem command exists. */
  lemma {:induction false} PlanCovers(t: Table, gemCommand: string, location: Location, kind: string, args: seq<string>)
    requires args in Calls(t, location, kind)
    ensures CheckSpec(location, kind, args, None) in Plan(t, gemCommand)
    ensures kind == "gem" ==> CheckSpec(location, "command", [gemCommand], Some(GemMissing)) in Plan(t, gemCommand)
  {
    if t[0].location == location {
      PlanTypesCovers(location, t[0].types, gemCommand, kind, args);
    } else {
      PlanCovers(t[1..], gemCommand, location, kind, args);
    }
  }

  function FailingMessages(results: seq<CheckResult>): seq<string>
  {
    if results == [] then []
    else (if results[0].pass then [] else [results[0].message]) + FailingMessages(results[1..])
  }

  /** `dependencies.pass?` and the listing of the failed checks' messages. */
  function Aggregate(results: seq<CheckResult>): (r: Report)
  {
    var failing := FailingMessages(results);
    if failing == [] then AllPassed else Failed(failing)
  }

  lemma {:induction false} FailingMessagesExact(results: seq<CheckResult>)
    ensures FailingMessages(results) == [] <==> forall i :: 0 <= i < |results| ==> results[i].pass
    ensures forall m :: m in FailingMessages(results) <==>
      exists i :: 0 <= i < |results| && !results[i].pass && results[i].message == m
  {
    if results != [] {
      FailingMessagesExact(results[1..]);
      forall m | m in FailingMessages(results[1..])
        ensures exists i :: 0 <= i < |results| && !results[i].pass && results[i].message == m
      {
        var i :| 0 <= i < |results[1..]| && !results[1..][i].pass && results[1..][i].message == m;
        assert results[i + 1] == results[1..][i];
      }
      forall i | 0 <= i < |results| && !results[i].pass ensures results[i].message in FailingMessages(results) {
        if i > 0 {
          assert results[1..][i - 1] == results[i];
        }
      }
      if FailingMessages(results) == [] {
        forall i | 0 <= i < |results| ensures results[i].pass {
          if i > 0 {
            assert results[1..][i - 1] == results[i];
          }
        }
      }
    }
  }

  /** One message per failed check, in the order the checks ran: the
      messages of two runs of checks are those of the first run followed by
      those of the second, and one check gives its message exactly when it
      fails. */
  lemma {:induction false} FailingMessagesInOrder(a: seq<CheckResult>, b: seq<CheckResult>)
    ensures FailingMessages(a + b) == FailingMessages(a) + FailingMessages(b)
    ensures forall r :: FailingMessages([r]) == if r.pass then [] else [r.message]
    decreases |a|
  {
    if a != [] {
      assert (a + b)[1..] == a[1..] + b;
      FailingMessagesInOrder(a[1..], b);
    } else {
      assert a + b == b;
    }
    forall r ensures FailingMessages([r]) == if r.pass then [] else [r.message] {
      assert [r][1..] == [];
    }
  }

  /** The check passes exactly when every check passes; otherwise it reports
      the message of every failed check and no other message. */
  lemma AggregateReport(results: seq<CheckResult>)
    ensures Aggregate(results).AllPassed? <==> forall i :: 0 <= i < |results| ==> results[i].pass
    ensures Aggregate(results).Failed? ==>
      forall m :: m in Aggregate(results).messages <==>
        exists i :: 0 <= i < |results| && !results[i].pass && results[i].message == m
  {
    FailingMessagesExact(results);
  }

  /** Running one planned check with the probes Capistrano provides; a
      message set with `or` replaces the probe's own. */
  function RunCheck(spec: CheckSpec, probe: CheckSpec -> CheckResult): CheckResult
  {
    var r := probe(spec);
    match spec.message
    case Some(m) => r.(message := m)
    case None => r
  }

  function RunAll(specs: seq<CheckSpec>, probe: CheckSpec -> CheckResult): seq<CheckResult>
  {
    if specs == [] then [] else [RunCheck(specs[0], probe)] + RunAll(specs[1..], probe)
  }

  /** `deploy:check`: the strategy's results, then the recorded checks. */
  function Check(strategyResults: seq<CheckResult>, t: Table, gemCommand: string,
                 probe: CheckSpec -> CheckResult): Report
  {
    Aggregate(strategyResults + RunAll(Plan(t, gemCommand), probe))
  }

  lemma {:induction false} RunAllIndex(specs: seq<CheckSpec>, probe: CheckSpec -> CheckResult, i: nat)
    requires i < |specs|
    ensures |RunAll(specs, probe)| == |specs|
    ensures RunAll(specs, probe)[i] == RunCheck(specs[i], probe)
  {
    if i > 0 {
      RunAllIndex(specs[1..], probe, i - 1);
    } else if |specs| > 1 {
      RunAllIndex(specs[1..], probe, 0);
    }
  }

  /** A recorded dependency whose probe fails makes `deploy:check` fail and
      report the check's message. */
  lemma CheckReportsFailedDependency(strategyResults: seq<CheckResult>, t: Table, gemCommand: string,
                                     probe: CheckSpec -> CheckResult, location: Location, kind: string,
                                     args: seq<string>)
    requires args in Calls(t, location, kind)
    requires !probe(CheckSpec(location, kind, args, None)).pass
    ensures Check(strategyResults, t, gemCommand, probe).Failed?
    ensures probe(CheckSpec(location, kind, args, None)).message in Check(strategyResults, t, gemCommand, probe).messages
  {
    var spec := CheckSpec(location, kind, args, None);
    var plan := Plan(t, gemCommand);
    PlanCovers(t, gemCommand, location, kind, args);
    var j :| 0 <= j < |plan| && plan[j] == spec;
    RunAllIndex(plan, probe, j);
    var results := strategyResults + RunAll(plan, probe);
    assert results[|strategyResults| + j] == probe(spec);
    AggregateReport(results);
  }
}
