/** Whole test runs: the scenario loop of `pkg/runner/runner.go` over mock backends whose counters are reset and
    whose configs are rewritten step by step, and the test loop of `pkg/harness/harness.go`. */
module ScenarioRuns {
  import opened Common
  import opened Assertions

  datatype RouteConfig = RouteConfig(
    status: int, headers: map<string, string>, body: string, failureMode: string, echoRequest: bool)

  datatype Config = Config(fallback: RouteConfig, routes: map<string, RouteConfig>)

  type Configs = map<string, Config>

  datatype Step = Step(overrides: Configs, expectations: Expectations)

  datatype Test =
    | Single(overrides: Configs, expectations: Expectations)
    | Scenario(overrides: Configs, steps: seq<Step>)

  /** What the outside does in one step: its time cannot be set, which ends the scenario before anything is written;
      or the transport fails; or a response comes back after the backends handled the given requests between the
      reset and the read of their counters.  Requests that come in after the read are late. */
  datatype Round =
    | Untimely
    | Broken(handled: seq<string>)
    | Served(response: HttpResponse, jar: Jar, handled: seq<string>, late: seq<string>)

  // ---------------------------------------------------------------- configs and counters

  /** A status left out means 200. */
  function WithDefault(c: Config): Config {
    if c.fallback.status == 0 then c.(fallback := c.fallback.(status := 200)) else c
  }

  /** A backend for which w was written last runs with everything w says, and with status 200 where w says none. */
  predicate InForceAs(w: Config, config: Config) {
    && config.routes == w.routes
    && config.fallback.headers == w.fallback.headers && config.fallback.body == w.fallback.body
    && config.fallback.failureMode == w.fallback.failureMode
    && config.fallback.echoRequest == w.fallback.echoRequest
    && (w.fallback.status != 0 ==> config.fallback.status == w.fallback.status)
    && (w.fallback.status == 0 ==> config.fallback.status == 200)
  }

  function Override(configs: Configs, overrides: Configs): Configs {
    map name | name in configs :: if name in overrides then WithDefault(overrides[name]) else configs[name]
  }

  /** The configs after the given overrides have been written, in order. */
  function AfterWrites(configs: Configs, writes: seq<Configs>): Configs {
    if writes == [] then configs
    else Override(AfterWrites(configs, writes[..|writes| - 1]), writes[|writes| - 1])
  }

  /** The configs after each of the writes. */
  function InForce(configs: Configs, writes: seq<Configs>): seq<Configs> {
    if writes == [] then [] else InForce(configs, writes[..|writes| - 1]) + [AfterWrites(configs, writes)]
  }

  /** The writes of a scenario from step i on: one for each step up to the first that is not served, and none for a
      step whose time cannot be set. */
  function StepWrites(steps: seq<Step>, rounds: seq<Round>, i: nat): seq<Configs>
    requires i <= |steps| == |rounds|
    decreases |steps| - i
  {
    if i == |steps| || rounds[i].Untimely? then []
    else [steps[i].overrides] + if rounds[i].Served? then StepWrites(steps, rounds, i + 1) else []
  }

  /** How often each backend handled a request of the list. */
  function CallCounts(names: set<string>, handled: seq<string>): map<string, int> {
    map name | name in names :: multiset(handled)[name]
  }

  /** The mock backends: one config and one call counter each. */
  class Backends {
    var configs: Configs
    var callCounts: map<string, int>

    constructor (configs: Configs)
      ensures Valid() && this.configs == configs
    {
      this.configs := configs;
      this.callCounts := map name | name in configs :: 0;
    }

    ghost predicate Valid()
      reads this
    {
      callCounts.Keys == configs.Keys
    }

    method UpdateConfigs(overrides: Configs)
      requires Valid()
      modifies this`configs
      ensures Valid() && configs == Override(old(configs), overrides)
      ensures configs.Keys == old(configs).Keys
      ensures forall name :: name in configs ==>
                               if name in overrides then InForceAs(overrides[name], configs[name])
                               else configs[name] == old(configs)[name]
    {
      var rest := overrides.Keys;
      ghost var before := configs;
      while rest != {}
        invariant rest <= overrides.Keys && configs.Keys == before.Keys
        invariant forall name :: name in configs ==>
                                   configs[name] == if name in overrides.Keys - rest then WithDefault(overrides[name])
                                                    else before[name]
        decreases rest
      {
        var name := Pick(rest);
        if name in configs {
          configs := configs[name := WithDefault(overrides[name])];
        }
        rest := rest - {name};
      }
    }

    method ResetCallCounts()
      requires Valid()
      modifies this`callCounts
      ensures Valid() && callCounts == CallCounts(configs.Keys, [])
    {
      callCounts := map name | name in callCounts :: 0;
    }

    /** A request to one backend: its counter goes up, and its route for the path, or else its fallback, answers. */
    method HandleRequest(name: string, path: string) returns (config: RouteConfig)
      requires Valid() && name in configs
      modifies this`callCounts
      ensures Valid() && callCounts == old(callCounts)[name := old(callCounts)[name] + 1]
      ensures config == if path in configs[name].routes then configs[name].routes[path] else configs[name].fallback
    {
      callCounts := callCounts[name := callCounts[name] + 1];
      if path in configs[name].routes {
        return configs[name].routes[path];
      }
      return configs[name].fallback;
    }

    /** Requests handled while a step waits for its response. */
    method Handle(handled: seq<string>)
      requires Valid()
      modifies this`callCounts
      ensures Valid()
      ensures forall name :: name in callCounts ==> callCounts[name] == old(callCounts)[name] + multiset(handled)[name]
    {
      for i := 0 to |handled|
        invariant Valid()
        invariant forall name :: name in callCounts ==>
                                   callCounts[name] == old(callCounts)[name] + multiset(handled[..i])[name]
      {
        assert handled[..i + 1] == handled[..i] + [handled[i]];
        if handled[i] in configs {
          var _ := HandleRequest(handled[i], "/");
        }
      }
      assert handled[..|handled|] == handled;
    }
  }

  // ---------------------------------------------------------------- the scenario loop

  datatype Verdict = Aborted | Finished(passed: bool, errors: seq<(nat, Failure)>)

  ghost predicate StepMet(names: set<string>, step: Step, round: Round) {
    round.Served? && Meets(step.expectations, round.response, CallCounts(names, round.handled), round.jar)
  }

  /** One step: set the time, override configs, reset the counters, make the request, read the counters, check. */
  method RunStep(backends: Backends, step: Step, round: Round, index: nat)
    returns (broken: bool, errors: seq<(nat, Failure)>)
    requires backends.Valid()
    modifies backends
    ensures backends.Valid()
    ensures backends.configs
            == if round.Untimely? then old(backends.configs) else Override(old(backends.configs), step.overrides)
    ensures broken <==> !round.Served?
    ensures !broken ==> (errors == [] <==> StepMet(old(backends.configs.Keys), step, round))
  {
    broken, errors := false, [];
    if round.Untimely? {
      return true, [];
    }
    backends.UpdateConfigs(step.overrides);
    backends.ResetCallCounts();
    backends.Handle(round.handled);
    if round.Broken? {
      broken := true;
      return;
    }
    assert backends.callCounts == CallCounts(old(backends.configs.Keys), round.handled);
    var passed, found := Check(step.expectations, round.response, backends.callCounts, round.jar);
    if !passed {
      errors := seq(|found|, k requires 0 <= k < |found| => (index, found[k]));
      assert errors[0] == (index, found[0]);
    }
    backends.Handle(round.late);
  }

  ghost predicate AllMet(names: set<string>, steps: seq<Step>, rounds: seq<Round>, n: nat)
    requires n <= |steps| && n <= |rounds|
  {
    forall i :: 0 <= i < n ==> StepMet(names, steps[i], rounds[i])
  }

  lemma AfterNext(configs: Configs, writes: seq<Configs>, write: Configs)
    ensures AfterWrites(configs, writes + [write]) == Override(AfterWrites(configs, writes), write)
    ensures InForce(configs, writes + [write]) == InForce(configs, writes) + [AfterWrites(configs, writes + [write])]
  {
    assert (writes + [write])[..|writes|] == writes;
  }

  lemma WroteMore(initial: Configs, writes: seq<Configs>, configs: Configs, inForce: seq<Configs>, write: Configs)
    requires Wrote(initial, writes, configs, inForce)
    ensures Wrote(initial, writes + [write], Override(configs, write), inForce + [Override(configs, write)])
  {
    AfterNext(initial, writes, write);
  }

  /** The configs written so far, and what they make of the backends. */
  ghost predicate Wrote(initial: Configs, writes: seq<Configs>, configs: Configs, inForce: seq<Configs>) {
    configs == AfterWrites(initial, writes) && inForce == InForce(initial, writes)
  }

  /** There are no errors so far exactly when the first n steps met their expectations. */
  ghost predicate Told(names: set<string>, steps: seq<Step>, rounds: seq<Round>, n: nat, errors: seq<(nat, Failure)>)
    requires n <= |steps| && n <= |rounds|
  {
    errors == [] <==> AllMet(names, steps, rounds, n)
  }

  lemma ToldMore(
    names: set<string>, steps: seq<Step>, rounds: seq<Round>, n: nat, errors: seq<(nat, Failure)>,
    more: seq<(nat, Failure)>)
    requires n < |steps| && n < |rounds| && Told(names, steps, rounds, n, errors)
    requires more == [] <==> StepMet(names, steps[n], rounds[n])
    ensures Told(names, steps, rounds, n + 1, errors + more)
  {
  }

  lemma WritesFrom(steps: seq<Step>, rounds: seq<Round>, i: nat, writes: seq<Configs>)
    requires i < |steps| == |rounds|
    ensures writes + StepWrites(steps, rounds, i)
            == if rounds[i].Untimely? then writes
               else if rounds[i].Broken? then writes + [steps[i].overrides]
               else writes + [steps[i].overrides] + StepWrites(steps, rounds, i + 1)
  {
    assert writes + [] == writes;
  }

  predicate AllServed(rounds: seq<Round>, n: nat)
    requires n <= |rounds|
  {
    forall i :: 0 <= i < n ==> rounds[i].Served?
  }

  /** Where a scenario stands before step i: every step so far was served, and the errors so far tell whether
      expectations were met. */
  ghost predicate Progress(
    names: set<string>, steps: seq<Step>, rounds: seq<Round>, i: nat, errors: seq<(nat, Failure)>)
    requires i <= |steps| == |rounds|
  {
    AllServed(rounds, i) && Told(names, steps, rounds, i, errors)
  }

  /** The writes so far and those to come are all of the scenario's. */
  predicate WritesLeft(steps: seq<Step>, rounds: seq<Round>, i: nat, writes: seq<Configs>, all: seq<Configs>)
    requires i <= |steps| == |rounds|
  {
    writes + StepWrites(steps, rounds, i) == all
  }

  lemma WritesLeftNext(steps: seq<Step>, rounds: seq<Round>, i: nat, writes: seq<Configs>, all: seq<Configs>)
    requires i < |steps| == |rounds| && WritesLeft(steps, rounds, i, writes, all)
    ensures rounds[i].Served? ==> WritesLeft(steps, rounds, i + 1, writes + [steps[i].overrides], all)
    ensures !rounds[i].Served? ==> all == if rounds[i].Untimely? then writes else writes + [steps[i].overrides]
  {
    WritesFrom(steps, rounds, i, writes);
  }

  lemma ProgressMore(
    names: set<string>, steps: seq<Step>, rounds: seq<Round>, i: nat, errors: seq<(nat, Failure)>,
    more: seq<(nat, Failure)>)
    requires i < |steps| == |rounds| && Progress(names, steps, rounds, i, errors)
    requires rounds[i].Served? && (more == [] <==> StepMet(names, steps[i], rounds[i]))
    ensures Progress(names, steps, rounds, i + 1, errors + more)
  {
    ToldMore(names, steps, rounds, i, errors, more);
  }

  /** Without time or transport errors a scenario finishes, and it passes exactly when every step meets its full
      expectations on its own response, its own jar and the calls handled between that step's reset and read.
      Finished or not, the configs are those after the writes of the steps reached, and `inForce` records the configs
      each request ran against. */
  method RunScenario(backends: Backends, steps: seq<Step>, rounds: seq<Round>)
    returns (verdict: Verdict, ghost inForce: seq<Configs>)
    requires backends.Valid() && |rounds| == |steps|
    modifies backends
    ensures backends.Valid() && backends.configs.Keys == old(backends.configs.Keys)
    ensures backends.configs == AfterWrites(old(backends.configs), StepWrites(steps, rounds, 0))
    ensures inForce == InForce(old(backends.configs), StepWrites(steps, rounds, 0))
    ensures verdict.Aborted? <==> !AllServed(rounds, |rounds|)
    ensures verdict.Finished? ==>
              && (verdict.passed <==> AllMet(old(backends.configs.Keys), steps, rounds, |steps|))
              && (verdict.passed <==> verdict.errors == [])
  {
    var allErrors: seq<(nat, Failure)> := [];
    inForce := [];
    ghost var initial := backends.configs;
    ghost var writes: seq<Configs> := [];
    ghost var all := StepWrites(steps, rounds, 0);
    for i := 0 to |steps|
      invariant backends.Valid() && backends.configs.Keys == initial.Keys
      invariant Wrote(initial, writes, backends.configs, inForce)
      invariant WritesLeft(steps, rounds, i, writes, all)
      invariant Progress(initial.Keys, steps, rounds, i, allErrors)
    {
      WritesLeftNext(steps, rounds, i, writes, all);
      WroteMore(initial, writes, backends.configs, inForce, steps[i].overrides);
      var broken, errors := RunStep(backends, steps[i], rounds[i], i);
      if !rounds[i].Untimely? {
        writes := writes + [steps[i].overrides];
        inForce := inForce + [backends.configs];
      }
      if broken {
        return Aborted, inForce;
      }
      ProgressMore(initial.Keys, steps, rounds, i, allErrors, errors);
      allErrors := allErrors + errors;
    }
    assert writes + [] == writes;
    verdict := Finished(|allErrors| == 0, allErrors);
  }

  /** Each backend runs with the last config written to it: that of the last write that names it, or else the one it
      started with.  This holds for the writes of one scenario and of a whole run alike. */
  lemma {:induction false} LastWriteWins(configs: Configs, writes: seq<Configs>, name: string, i: nat)
    requires name in configs && i <= |writes|
    requires forall k :: i <= k < |writes| ==> name !in writes[k]
    requires i > 0 ==> name in writes[i - 1]
    ensures name in AfterWrites(configs, writes)
    ensures i > 0 ==> InForceAs(writes[i - 1][name], AfterWrites(configs, writes)[name])
    ensures i == 0 ==> AfterWrites(configs, writes)[name] == configs[name]
    decreases |writes|
  {
    if writes != [] {
      var before := writes[..|writes| - 1];
      if i < |writes| {
        assert name !in writes[|writes| - 1];
        LastWriteWins(configs, before, name, i);
      } else {
        AfterWritesKeys(configs, before);
      }
    }
  }

  lemma {:induction false} AfterWritesKeys(configs: Configs, writes: seq<Configs>)
    ensures AfterWrites(configs, writes).Keys == configs.Keys
    decreases |writes|
  {
    if writes != [] {
      AfterWritesKeys(configs, writes[..|writes| - 1]);
    }
  }

  /** Writing on from where earlier writes have led is writing all of them. */
  lemma {:induction false} AfterConcat(configs: Configs, a: seq<Configs>, b: seq<Configs>)
    ensures AfterWrites(configs, a + b) == AfterWrites(AfterWrites(configs, a), b)
    decreases |b|
  {
    if b == [] {
      assert a + b == a;
    } else {
      assert (a + b)[..|a + b| - 1] == a + b[..|b| - 1];
      AfterConcat(configs, a, b[..|b| - 1]);
    }
  }

  /** Step k of a scenario writes its overrides if all steps before it were served and its time could be set; after the
      first step that is not served nothing is written. */
  lemma {:induction false} StepWritesAt(steps: seq<Step>, rounds: seq<Round>, i: nat, k: nat)
    requires i <= k < |steps| == |rounds| && forall j :: i <= j < k ==> rounds[j].Served?
    ensures !rounds[k].Untimely? ==>
              |StepWrites(steps, rounds, i)| > k - i && StepWrites(steps, rounds, i)[k - i] == steps[k].overrides
    ensures rounds[k].Untimely? ==> |StepWrites(steps, rounds, i)| == k - i
    ensures rounds[k].Broken? ==> |StepWrites(steps, rounds, i)| == k - i + 1
    decreases k - i
  {
    if i < k {
      StepWritesAt(steps, rounds, i + 1, k);
    }
  }

  /** A scenario whose steps are all served and whose last step overrides a backend, and then a request to that backend
      on a path without a route: it is answered with what the step says, by default with status 200. */
  method RequestAfterScenario(backends: Backends, steps: seq<Step>, rounds: seq<Round>, name: string, path: string)
    returns (config: RouteConfig)
    requires backends.Valid() && name in backends.configs && |steps| == |rounds| > 0
    requires forall i :: 0 <= i < |rounds| ==> rounds[i].Served?
    requires name in steps[|steps| - 1].overrides && path !in steps[|steps| - 1].overrides[name].routes
    modifies backends
    ensures var w := steps[|steps| - 1].overrides[name].fallback;
            && (w.status != 0 ==> config == w)
            && (w.status == 0 ==> config == w.(status := 200))
  {
    ghost var n := |steps| - 1;
    ghost var initial := backends.configs;
    var _, _ := RunScenario(backends, steps, rounds);
    StepWritesAt(steps, rounds, 0, n);
    StepWritesLength(steps, rounds, 0);
    LastWriteWins(initial, StepWrites(steps, rounds, 0), name, |steps|);
    config := backends.HandleRequest(name, path);
  }

  lemma {:induction false} StepWritesLength(steps: seq<Step>, rounds: seq<Round>, i: nat)
    requires i <= |steps| == |rounds|
    ensures |StepWrites(steps, rounds, i)| <= |steps| - i
    decreases |steps| - i
  {
    if i < |steps| {
      StepWritesLength(steps, rounds, i + 1);
    }
  }

  // ---------------------------------------------------------------- the test loop

  /** What the outside does during one test: whether the cache could be cleared, and the rounds of its requests. */
  datatype World = World(cacheCleared: bool, rounds: seq<Round>)

  function StepsOf(test: Test): seq<Step> {
    if test.Single? then [Step(map[], test.expectations)] else test.steps
  }

  predicate Fits(test: Test, world: World) {
    |world.rounds| == |StepsOf(test)|
  }

  /** A test passes: its cache was cleared and every request met its expectations.  A single request has no jar. */
  ghost predicate TestMet(names: set<string>, test: Test, world: World)
    requires Fits(test, world)
  {
    && world.cacheCleared
    && forall i :: 0 <= i < |world.rounds| ==>
                     StepMet(names, StepsOf(test)[i], WithoutJar(test, world.rounds[i]))
  }

  function WithoutJar(test: Test, round: Round): Round {
    if test.Single? && round.Served? then round.(jar := None) else round
  }

  /** The configs a test writes: its own overrides once the cache is cleared, then those of its scenario's steps. */
  function TestWrites(test: Test, world: World): seq<Configs>
    requires Fits(test, world)
  {
    if !world.cacheCleared then []
    else [test.overrides] + if test.Single? then [] else StepWrites(test.steps, world.rounds, 0)
  }

  predicate AllFit(tests: seq<Test>, worlds: seq<World>) {
    |tests| == |worlds| && forall i :: 0 <= i < |tests| ==> Fits(tests[i], worlds[i])
  }

  /** The writes of the first n tests of a run. */
  function RunWrites(tests: seq<Test>, worlds: seq<World>, n: nat): seq<Configs>
    requires AllFit(tests, worlds) && n <= |tests|
  {
    if n == 0 then [] else RunWrites(tests, worlds, n - 1) + TestWrites(tests[n - 1], worlds[n - 1])
  }

  /** A test whose cache is cleared writes its own overrides first; a single request writes nothing else. */
  lemma TestWritesFirst(test: Test, world: World)
    requires Fits(test, world)
    ensures !world.cacheCleared ==> TestWrites(test, world) == []
    ensures world.cacheCleared ==> |TestWrites(test, world)| >= 1 && TestWrites(test, world)[0] == test.overrides
    ensures world.cacheCleared && test.Single? ==> |TestWrites(test, world)| == 1
    ensures world.cacheCleared && test.Scenario? ==>
              TestWrites(test, world)[1..] == StepWrites(test.steps, world.rounds, 0)
  {
  }

  /** A single request has no cookie jar: expecting cookies of it always fails. */
  lemma SingleHasNoJar(names: set<string>, test: Test, world: World)
    requires Fits(test, world) && test.Single? && test.expectations.cookies != map[]
    ensures !TestMet(names, test, world)
  {
    assert !StepMet(names, StepsOf(test)[0], WithoutJar(test, world.rounds[0]));
  }

  /** A single request: reset the counters, make the request, read the counters, check without a jar. */
  method RunSingle(backends: Backends, expectations: Expectations, round: Round) returns (passed: bool)
    requires backends.Valid()
    modifies backends`callCounts
    ensures backends.Valid()
    ensures passed <==>
              && round.Served?
              && Meets(expectations, round.response, CallCounts(backends.configs.Keys, round.handled), None)
  {
    backends.ResetCallCounts();
    backends.Handle(if round.Untimely? then [] else round.handled);
    if !round.Served? {
      return false;
    }
    assert backends.callCounts == CallCounts(backends.configs.Keys, round.handled);
    var met, _ := Check(expectations, round.response, backends.callCounts, None);
    passed := met;
    backends.Handle(round.late);
  }

  method RunTest(backends: Backends, test: Test, world: World) returns (passed: bool)
    requires backends.Valid() && Fits(test, world)
    modifies backends
    ensures backends.Valid() && backends.configs.Keys == old(backends.configs.Keys)
    ensures backends.configs == AfterWrites(old(backends.configs), TestWrites(test, world))
    ensures passed <==> TestMet(old(backends.configs.Keys), test, world)
  {
    if !world.cacheCleared {
      return false;
    }
    backends.UpdateConfigs(test.overrides);
    ghost var names := backends.configs.Keys;
    assert [] + [test.overrides] == [test.overrides];
    AfterNext(old(backends.configs), [], test.overrides);
    if test.Single? {
      passed := RunSingle(backends, test.expectations, world.rounds[0]);
      assert TestMet(names, test, world) == StepMet(names, StepsOf(test)[0], WithoutJar(test, world.rounds[0]));
    } else {
      var verdict, _ := RunScenario(backends, test.steps, world.rounds);
      passed := verdict.Finished? && verdict.passed;
      AfterConcat(old(backends.configs), [test.overrides], StepWrites(test.steps, world.rounds, 0));
    }
  }

  /** The verdicts that the first n tests deserve. */
  ghost function Verdicts(names: set<string>, tests: seq<Test>, worlds: seq<World>, n: nat): (verdicts: seq<bool>)
    requires AllFit(tests, worlds) && n <= |tests|
    ensures |verdicts| == n
  {
    if n == 0 then [] else Verdicts(names, tests, worlds, n - 1) + [TestMet(names, tests[n - 1], worlds[n - 1])]
  }

  lemma CountMore(results: seq<bool>, ok: bool)
    ensures multiset(results + [ok])[true] == multiset(results)[true] + if ok then 1 else 0
  {
  }

  /** The configs that the first n tests leave. */
  predicate LeftBy(initial: Configs, tests: seq<Test>, worlds: seq<World>, n: nat, configs: Configs)
    requires AllFit(tests, worlds) && n <= |tests|
  {
    configs == AfterWrites(initial, RunWrites(tests, worlds, n))
  }

  lemma LeftByMore(
    initial: Configs, tests: seq<Test>, worlds: seq<World>, n: nat, before: Configs, after: Configs,
    writes: seq<Configs>)
    requires AllFit(tests, worlds) && n < |tests| && LeftBy(initial, tests, worlds, n, before)
    requires writes == TestWrites(tests[n], worlds[n]) && after == AfterWrites(before, writes)
    ensures LeftBy(initial, tests, worlds, n + 1, after)
  {
    AfterConcat(initial, RunWrites(tests, worlds, n), writes);
  }

  /** The next test of a run. */
  method RunNext(
    backends: Backends, tests: seq<Test>, worlds: seq<World>, ghost initial: Configs, results: seq<bool>)
    returns (ok: bool)
    requires backends.Valid() && AllFit(tests, worlds) && |results| < |tests|
    requires backends.configs.Keys == initial.Keys
    requires LeftBy(initial, tests, worlds, |results|, backends.configs)
    requires results == Verdicts(initial.Keys, tests, worlds, |results|)
    modifies backends
    ensures backends.Valid() && backends.configs.Keys == initial.Keys
    ensures LeftBy(initial, tests, worlds, |results| + 1, backends.configs)
    ensures results + [ok] == Verdicts(initial.Keys, tests, worlds, |results| + 1)
  {
    var i := |results|;
    ghost var before := backends.configs;
    ok := RunTest(backends, tests[i], worlds[i]);
    LeftByMore(initial, tests, worlds, i, before, backends.configs, TestWrites(tests[i], worlds[i]));
  }

  /** Every test gives one result, its own verdict; passed and failed add up to the total, which is the number of
      results.  The configs are those after all the writes of all the tests, in run order. */
  method RunTests(backends: Backends, tests: seq<Test>, worlds: seq<World>)
    returns (passed: nat, failed: nat, results: seq<bool>)
    requires backends.Valid() && AllFit(tests, worlds)
    modifies backends
    ensures |results| == |tests| && passed + failed == |tests| && passed == multiset(results)[true]
    ensures LeftBy(old(backends.configs), tests, worlds, |tests|, backends.configs)
    ensures results == Verdicts(old(backends.configs.Keys), tests, worlds, |tests|)
  {
    passed, failed, results := 0, 0, [];
    ghost var initial := backends.configs;
    while |results| < |tests|
      invariant backends.Valid() && backends.configs.Keys == initial.Keys
      invariant |results| <= |tests| && passed + failed == |results| && passed == multiset(results)[true]
      invariant LeftBy(initial, tests, worlds, |results|, backends.configs)
      invariant results == Verdicts(initial.Keys, tests, worlds, |results|)
      decreases |tests| - |results|
    {
      var ok := RunNext(backends, tests, worlds, initial, results);
      CountMore(results, ok);
      results := results + [ok];
      if ok {
        passed := passed + 1;
      } else {
        failed := failed + 1;
      }
    }
  }
}
