/** The scorecard's stage runner (internal/scorecard/scorecard.go). */
module Scorecard {
  import opened Slices

  datatype TestConfiguration = TestConfiguration(image: string, entrypoint: seq<string>, labels: map<string, string>,
                                                 mountPath: string)

  datatype TestResult = TestResult(state: string, errors: seq<string>, log: string)

  datatype TestStatus = TestStatus(results: seq<TestResult>)

  datatype Test = Test(spec: TestConfiguration, status: TestStatus)

  datatype Reply = Ran(status: TestStatus) | Broken(error: string)

  /** runTest, for what the runner answered. */
  function Result(test: TestConfiguration, reply: Reply): Test {
    Test(test, match reply case Ran(s) => s case Broken(e) => TestStatus([TestResult("fail", [e], "")]))
  }

  /** The results of a stage, in the order of its tests. */
  function Results(tests: seq<TestConfiguration>, replies: nat -> Reply): (r: seq<Test>)
    ensures |r| == |tests|
  {
    seq(|tests|, i requires 0 <= i < |tests| => Result(tests[i], replies(i)))
  }

  // ----- A parallel stage, step by step -----

  /** Where the main goroutine is: about to add to the wait group or to start the goroutine of test i,
      waiting, past the wait, past closing the channel. */
  datatype Main = AtAdd(i: nat) | AtGo(i: nat) | AtWait | AtClose | Closed

  datatype Phase = AtSend | AtDone | Finished

  /** `workers` are the goroutines started so far, `sent` the tests whose results are in the channel, in
      the order of sending. Sending on a closed channel and a negative wait group panic. */
  datatype State = State(main: Main, workers: seq<Phase>, waitGroup: int, sent: seq<nat>, panicked: bool)

  const MAIN := 0

  function Start(): State {
    State(AtAdd(0), [], 0, [], false)
  }

  /** Agent 0 is the main goroutine and agent j + 1 that of test j; n is the number of tests
      and the capacity of the channel. */
  predicate Enabled(n: nat, s: State, agent: nat) {
    if agent == MAIN then s.main != Closed && (s.main == AtWait ==> s.waitGroup == 0)
    else
      agent <= |s.workers| &&
      match s.workers[agent - 1]
      case AtSend => |s.sent| < n
      case AtDone => true
      case Finished => false
  }

  function Step(n: nat, s: State, agent: nat): State
    requires Enabled(n, s, agent)
  {
    if agent == MAIN then
      match s.main
      case AtAdd(i) => if i < n then s.(main := AtGo(i), waitGroup := s.waitGroup + 1) else s.(main := AtWait)
      case AtGo(i) => s.(main := AtAdd(i + 1), workers := s.workers + [AtSend])
      case AtWait => s.(main := AtClose)
      case AtClose => s.(main := Closed)
    else
      var j := agent - 1;
      match s.workers[j]
      case AtSend => s.(workers := s.workers[j := AtDone], sent := s.sent + [j],
                        panicked := s.panicked || s.main == Closed)
      case AtDone => s.(workers := s.workers[j := Finished], waitGroup := s.waitGroup - 1,
                        panicked := s.panicked || s.waitGroup <= 0)
  }

  /** What Go makes of a channel and a wait group: a send waits while the channel is full and panics once it is
      closed, waiting takes until the wait group is at zero, and it panics below zero. */
  lemma GoRules(n: nat, s: State, j: nat)
    requires j < |s.workers|
    ensures s.workers[j] == AtSend ==>
              && (Enabled(n, s, j + 1) <==> |s.sent| < n)
              && (Enabled(n, s, j + 1) && s.main == Closed ==> Step(n, s, j + 1).panicked)
    ensures s.main == AtWait ==> (Enabled(n, s, MAIN) <==> s.waitGroup == 0)
    ensures s.workers[j] == AtDone ==>
              && Enabled(n, s, j + 1) && Step(n, s, j + 1).waitGroup == s.waitGroup - 1
              && (s.waitGroup - 1 < 0 ==> Step(n, s, j + 1).panicked)
    ensures forall agent :: Enabled(n, s, agent) && s.panicked ==> Step(n, s, agent).panicked
  {
  }

  function Count(workers: seq<Phase>, p: Phase): nat {
    if workers == [] then 0 else (if workers[0] == p then 1 else 0) + Count(workers[1..], p)
  }

  lemma {:induction false} CountUpdate(workers: seq<Phase>, j: nat, to: Phase, p: Phase)
    requires j < |workers|
    ensures Count(workers[j := to], p) ==
            Count(workers, p) - (if workers[j] == p then 1 else 0) + if to == p then 1 else 0
  {
    if j > 0 {
      assert workers[j := to][1..] == workers[1..][j - 1 := to];
      CountUpdate(workers[1..], j - 1, to, p);
    }
  }

  lemma {:induction false} CountAppend(workers: seq<Phase>, last: Phase, p: Phase)
    ensures Count(workers + [last], p) == Count(workers, p) + if last == p then 1 else 0
  {
    if workers != [] {
      assert (workers + [last])[1..] == workers[1..] + [last];
      CountAppend(workers[1..], last, p);
    }
  }

  lemma {:induction false} CountAll(workers: seq<Phase>)
    ensures Count(workers, AtSend) + Count(workers, AtDone) + Count(workers, Finished) == |workers|
  {
    if workers != [] {
      CountAll(workers[1..]);
    }
  }

  lemma {:induction false} CountSome(workers: seq<Phase>, p: Phase)
    ensures Count(workers, p) > 0 <==> exists j :: 0 <= j < |workers| && workers[j] == p
  {
    if workers != [] {
      CountSome(workers[1..], p);
      assert forall j :: 0 < j < |workers| ==> workers[j] == workers[1..][j - 1];
      if exists j :: 0 <= j < |workers[1..]| && workers[1..][j] == p {
        var j :| 0 <= j < |workers[1..]| && workers[1..][j] == p;
        assert workers[j + 1] == p;
      }
    }
  }

  function Launched(n: nat, main: Main): nat {
    match main
    case AtAdd(i) => i
    case AtGo(i) => i
    case _ => n
  }

  /** What holds after every step of every interleaving. */
  ghost predicate Inv(n: nat, s: State) {
    && !s.panicked
    && |s.workers| == Launched(n, s.main) <= n
    && (s.main.AtGo? ==> s.main.i < n)
    && s.waitGroup == Count(s.workers, AtSend) + Count(s.workers, AtDone) + (if s.main.AtGo? then 1 else 0)
    && (s.main.AtClose? || s.main.Closed? ==> s.waitGroup == 0)
    && NoDup(s.sent)
    && (forall j: nat :: j in s.sent <==> j < |s.workers| && s.workers[j] != AtSend)
    && |s.sent| + Count(s.workers, AtSend) == |s.workers|
  }

  lemma StepKeepsInv(n: nat, s: State, agent: nat)
    requires Inv(n, s) && Enabled(n, s, agent)
    ensures Inv(n, Step(n, s, agent))
  {
    if agent == MAIN {
      CountAppend(s.workers, AtSend, AtSend);
      CountAppend(s.workers, AtSend, AtDone);
    } else {
      WorkerKeepsInv(n, s, agent - 1);
    }
  }

  lemma WorkerKeepsInv(n: nat, s: State, j: nat)
    requires Inv(n, s) && Enabled(n, s, j + 1)
    ensures Inv(n, Step(n, s, j + 1))
  {
    var to := Step(n, s, j + 1).workers[j];
    CountSome(s.workers, s.workers[j]);
    CountUpdate(s.workers, j, to, AtSend);
    CountUpdate(s.workers, j, to, AtDone);
    if s.workers[j] == AtSend {
      NoDupAppend(s.sent, j);
    }
  }

  /** A goroutine about to send finds room in the channel, and finds it open. */
  lemma SendsGoThrough(n: nat, s: State, j: nat)
    requires Inv(n, s) && j < |s.workers| && s.workers[j] == AtSend
    ensures |s.sent| < n && Enabled(n, s, j + 1)
    ensures s.main != Closed && s.main != AtClose
  {
    CountSome(s.workers, AtSend);
  }

  /** Until the channel is closed some step is possible. */
  lemma NoDeadlock(n: nat, s: State) returns (agent: nat)
    requires Inv(n, s) && s.main != Closed
    ensures agent <= |s.workers| && Enabled(n, s, agent)
  {
    if Enabled(n, s, MAIN) {
      agent := MAIN;
    } else {
      CountSome(s.workers, AtSend);
      CountSome(s.workers, AtDone);
      var j :| 0 <= j < |s.workers| && s.workers[j] != Finished;
      agent := j + 1;
      if s.workers[j] == AtSend {
        SendsGoThrough(n, s, j);
      }
    }
  }

  /** The steps still to be made: an add, a start, a send and a done for each test, and three more. */
  function Remaining(n: nat, s: State): int {
    (match s.main
     case AtAdd(i) => 4 * (n - i) + 3
     case AtGo(i) => 4 * (n - i) + 2
     case AtWait => 2
     case AtClose => 1
     case Closed => 0)
    + 2 * Count(s.workers, AtSend) + Count(s.workers, AtDone)
  }

  /** Every step is one of them, so that every interleaving ends after the same number of steps. */
  lemma StepCounts(n: nat, s: State, agent: nat)
    requires Inv(n, s) && Enabled(n, s, agent)
    ensures Remaining(n, Step(n, s, agent)) == Remaining(n, s) - 1
    ensures Remaining(n, s) > 0
    ensures Remaining(n, Start()) == 4 * n + 3
  {
    var s' := Step(n, s, agent);
    if agent == MAIN {
      CountAppend(s.workers, AtSend, AtSend);
      CountAppend(s.workers, AtSend, AtDone);
    } else {
      var j := agent - 1;
      var to := s'.workers[j];
      CountUpdate(s.workers, j, to, AtSend);
      CountUpdate(s.workers, j, to, AtDone);
    }
  }

  /** Once the channel is closed it holds one result for each test. */
  lemma ClosedIsComplete(n: nat, s: State)
    requires Inv(n, s) && s.main == Closed
    ensures Permutation(s.sent, n)
    ensures forall j :: 0 <= j < |s.workers| ==> s.workers[j] == Finished
  {
    CountSome(s.workers, AtSend);
    CountSome(s.workers, AtDone);
    CountAll(s.workers);
    forall i | 0 <= i < |s.sent|
      ensures s.sent[i] < n
    {
      assert s.sent[i] in s.sent;
    }
  }

  /** A state some interleaving leads to in k steps. */
  ghost predicate Reached(n: nat, k: nat, s: State) {
    if k == 0 then s == Start()
    else exists before, agent :: Reached(n, k - 1, before) && Enabled(n, before, agent) && Step(n, before, agent) == s
  }

  lemma {:induction false} Reachable(n: nat, k: nat, s: State)
    requires Reached(n, k, s)
    ensures Inv(n, s) && Remaining(n, s) == 4 * n + 3 - k
  {
    if k > 0 {
      var before, agent :| Reached(n, k - 1, before) && Enabled(n, before, agent) && Step(n, before, agent) == s;
      Reachable(n, k - 1, before);
      StepKeepsInv(n, before, agent);
      StepCounts(n, before, agent);
    }
  }

  /** Under every interleaving nothing panics, no send blocks or comes after the close, some step is possible
      until all is done, which is after exactly 4n + 3 steps, and then there is one result for each test. */
  lemma EveryInterleaving(n: nat, k: nat, s: State)
    requires Reached(n, k, s)
    ensures !s.panicked
    ensures forall j: nat :: j < |s.workers| && s.workers[j] == AtSend ==> Enabled(n, s, j + 1) && s.main != Closed
    ensures k <= 4 * n + 3
    ensures s.main == Closed <==> k == 4 * n + 3
    ensures s.main == Closed ==> Permutation(s.sent, n)
    ensures s.main != Closed ==> exists agent :: Enabled(n, s, agent)
  {
    Reachable(n, k, s);
    forall j: nat | j < |s.workers| && s.workers[j] == AtSend
      ensures Enabled(n, s, j + 1) && s.main != Closed
    {
      SendsGoThrough(n, s, j);
    }
    if s.main != Closed {
      var agent := NoDeadlock(n, s);
      StepCounts(n, s, agent);
    } else {
      ClosedIsComplete(n, s);
      CountSome(s.workers, AtSend);
      CountSome(s.workers, AtDone);
    }
  }

  // ----- Running the stages -----

  datatype Selector = Selector(text: string, matches: map<string, string> -> bool)

  datatype Stage = Stage(parallel: bool, tests: array<TestConfiguration>)

  /** How a run's surroundings behave: `reply(i, j)` answers for the j-th selected test of stage i. */
  datatype Surroundings = Surroundings(
    initialize: Option<string>,
    reply: (nat, nat) -> Reply,
    contextDone: Option<string>,
    cleanup: Option<string>)

  predicate Selects(selector: Option<Selector>, test: TestConfiguration) {
    selector.None? || selector.value.text == "" || selector.value.matches(test.labels)
  }

  function Selected(selector: Option<Selector>, tests: seq<TestConfiguration>): seq<TestConfiguration> {
    if tests == [] then []
    else Selected(selector, tests[..|tests| - 1]) +
         if Selects(selector, tests[|tests| - 1]) then [tests[|tests| - 1]] else []
  }

  function Defaulted(test: TestConfiguration, mountPath: string): TestConfiguration {
    if test.mountPath == "" then test.(mountPath := mountPath) else test
  }

  function AllDefaulted(tests: seq<TestConfiguration>, mountPath: string): (r: seq<TestConfiguration>)
    ensures |r| == |tests|
  {
    seq(|tests|, i requires 0 <= i < |tests| => Defaulted(tests[i], mountPath))
  }

  /** A stage's output: its results in order or, when it is parallel, in any order. */
  ghost predicate IsOutput(output: seq<Test>, parallel: bool, results: seq<Test>) {
    if parallel then exists perm :: Permutation(perm, |results|) && output == Permute(results, perm)
    else output == results
  }

  lemma OutputKeepsTests(output: seq<Test>, parallel: bool, results: seq<Test>)
    requires IsOutput(output, parallel, results)
    ensures multiset(output) == multiset(results)
  {
    if parallel {
      var perm :| Permutation(perm, |results|) && output == Permute(results, perm);
      PermuteMultiset(results, perm);
    }
  }

  // ----- A stage's output, read off its tests -----

  ghost function Wanted(selector: Option<Selector>): TestConfiguration -> bool {
    (test: TestConfiguration) => match selector
                                 case None => true
                                 case Some(s) => s.text != "" ==> s.matches(test.labels)
  }

  /** The result names the test, with the given mount path if it had none, and has its status or the one failure. */
  ghost predicate IsResult(result: Test, test: TestConfiguration, mountPath: string, reply: Reply) {
    && (test.mountPath != "" ==> result.spec == test)
    && (test.mountPath == "" ==> result.spec == TestConfiguration(test.image, test.entrypoint, test.labels, mountPath))
    && match reply
       case Ran(status) => result.status == status
       case Broken(e) => result.status.results == [TestResult("fail", [e], "")]
  }

  /** A result for each test that is wanted, in order. */
  ghost predicate AreResults(results: seq<Test>, tests: seq<TestConfiguration>, selector: Option<Selector>,
                             mountPath: string, replies: nat -> Reply) {
    exists chosen ::
      && Picked(tests, Wanted(selector), Same, chosen) && |results| == |chosen|
      && forall j :: 0 <= j < |chosen| ==> IsResult(results[j], chosen[j], mountPath, replies(j))
  }

  /** A stage gives out these results, in order or, when it is parallel, in any order. */
  ghost predicate IsStageOutput(output: seq<Test>, parallel: bool, tests: seq<TestConfiguration>,
                                selector: Option<Selector>, mountPath: string, replies: nat -> Reply) {
    exists results ::
      && AreResults(results, tests, selector, mountPath, replies)
      && multiset(output) == multiset(results) && (parallel || output == results)
  }

  lemma {:induction false} SelectedRead(selector: Option<Selector>, tests: seq<TestConfiguration>)
    ensures Picked(tests, Wanted(selector), Same, Selected(selector, tests))
  {
    if tests != [] {
      var front, test := tests[..|tests| - 1], tests[|tests| - 1];
      SelectedRead(selector, front);
      PickedNext(front, test, Wanted(selector), Same, Selected(selector, front), test);
      assert tests == front + [test] && Selected(selector, front) + [] == Selected(selector, front);
    }
  }

  lemma OutputRead(output: seq<Test>, parallel: bool, tests: seq<TestConfiguration>, selector: Option<Selector>,
                   mountPath: string, replies: nat -> Reply)
    requires IsOutput(output, parallel, Results(AllDefaulted(Selected(selector, tests), mountPath), replies))
    ensures IsStageOutput(output, parallel, tests, selector, mountPath, replies)
  {
    var chosen := Selected(selector, tests);
    var results := Results(AllDefaulted(chosen, mountPath), replies);
    SelectedRead(selector, tests);
    OutputKeepsTests(output, parallel, results);
    assert forall j :: 0 <= j < |chosen| ==> IsResult(results[j], chosen[j], mountPath, replies(j));
    assert AreResults(results, tests, selector, mountPath, replies);
  }

  class Runner {
    const stages: seq<Stage>
    const mountPath: string
    const selector: Option<Selector>
    const skipCleanup: bool

    constructor (stages: seq<Stage>, mountPath: string, selector: Option<Selector>, skipCleanup: bool)
      ensures this.stages == stages && this.mountPath == mountPath && this.selector == selector
              && this.skipCleanup == skipCleanup
    {
      this.stages, this.mountPath, this.selector, this.skipCleanup := stages, mountPath, selector, skipCleanup;
    }

    /** What stage i is to output some arrangement of. */
    function StageResults(i: nat, e: Surroundings): seq<Test>
      requires i < |stages|
      reads stages[i].tests
    {
      Results(AllDefaulted(Selected(selector, stages[i].tests[..]), mountPath), (j: nat) => e.reply(i, j))
    }

    method SelectTests(stage: Stage) returns (selected: array<TestConfiguration>)
      ensures fresh(selected) && selected[..] == Selected(selector, stage.tests[..])
    {
      var chosen := [];
      for i := 0 to stage.tests.Length
        invariant chosen == Selected(selector, stage.tests[..i])
      {
        var test := stage.tests[i];
        assert stage.tests[..i + 1][..i] == stage.tests[..i];
        if selector.None? || selector.value.text == "" || selector.value.matches(test.labels) {
          chosen := chosen + [test];
        }
      }
      assert stage.tests[..stage.tests.Length] == stage.tests[..];
      selected := new TestConfiguration[|chosen|](i requires 0 <= i < |chosen| => chosen[i]);
      assert selected[..] == chosen;
    }

    method SetTestDefaults(tests: array<TestConfiguration>)
      modifies tests
      ensures tests[..] == AllDefaulted(old(tests[..]), mountPath)
    {
      for i := 0 to tests.Length
        invariant forall j :: 0 <= j < i ==> tests[j] == Defaulted(old(tests[j]), mountPath)
        invariant forall j :: i <= j < tests.Length ==> tests[j] == old(tests[j])
      {
        if |tests[i].mountPath| == 0 {
          tests[i] := tests[i].(mountPath := mountPath);
        }
      }
    }

    /** Any schedule of the goroutines; what is in the channel once it is closed. */
    method RunStageParallel(tests: seq<TestConfiguration>, reply: nat -> Reply) returns (output: seq<Test>)
      ensures IsOutput(output, true, Results(tests, reply))
    {
      var s := Start();
      output := [];
      while s.main != Closed
        invariant Inv(|tests|, s)
        invariant |output| == |s.sent|
        invariant forall i :: 0 <= i < |output| ==>
                    s.sent[i] < |tests| && output[i] == Result(tests[s.sent[i]], reply(s.sent[i]))
        decreases Remaining(|tests|, s)
      {
        ghost var some := NoDeadlock(|tests|, s);
        var agent: nat :| agent <= |s.workers| && Enabled(|tests|, s, agent);
        StepKeepsInv(|tests|, s, agent);
        StepCounts(|tests|, s, agent);
        if agent != MAIN && s.workers[agent - 1] == AtSend {
          output := output + [Result(tests[agent - 1], reply(agent - 1))];
        }
        s := Step(|tests|, s, agent);
      }
      ClosedIsComplete(|tests|, s);
      assert output == Permute(Results(tests, reply), s.sent);
    }

    method RunStageSequential(tests: seq<TestConfiguration>, reply: nat -> Reply) returns (output: seq<Test>)
      ensures output == Results(tests, reply)
    {
      output := [];
      for i := 0 to |tests|
        invariant output == Results(tests, reply)[..i]
      {
        output := output + [Result(tests[i], reply(i))];
      }
    }

    /** The items are the stages' outputs in order, whether or not an error is reported, unless the
        initialization fails. The configuration is left as it was. */
    method Run(e: Surroundings) returns (items: seq<Test>, error: Option<string>, ghost parts: seq<seq<Test>>)
      ensures e.initialize.Some? ==> items == [] && error == e.initialize
      ensures e.initialize.None? ==>
                && |parts| == |stages| && items == Flatten(parts)
                && (forall i :: 0 <= i < |parts| ==>
                      && IsOutput(parts[i], stages[i].parallel, StageResults(i, e))
                      && IsStageOutput(parts[i], stages[i].parallel, stages[i].tests[..], selector, mountPath,
                                       (j: nat) => e.reply(i, j)))
                && error == if skipCleanup || e.cleanup.None? then e.contextDone else e.cleanup
    {
      items, error, parts := [], e.initialize, [];
      if error.Some? {
        return;
      }
      for i := 0 to |stages|
        invariant |parts| == i && items == Flatten(parts)
        invariant forall k :: 0 <= k < i ==> IsOutput(parts[k], stages[k].parallel, StageResults(k, e))
      {
        var output := RunStage(i, e);
        FlattenSnoc(parts, output);
        items, parts := items + output, parts + [output];
      }
      forall i | 0 <= i < |parts|
        ensures IsStageOutput(parts[i], stages[i].parallel, stages[i].tests[..], selector, mountPath,
                              (j: nat) => e.reply(i, j))
      {
        OutputRead(parts[i], stages[i].parallel, stages[i].tests[..], selector, mountPath, (j: nat) => e.reply(i, j));
      }
      error := e.contextDone;
      if !skipCleanup && e.cleanup.Some? {
        error := e.cleanup;
      }
    }

    method RunStage(i: nat, e: Surroundings) returns (output: seq<Test>)
      requires i < |stages|
      ensures IsOutput(output, stages[i].parallel, StageResults(i, e))
    {
      var tests := SelectTests(stages[i]);
      if tests.Length == 0 {
        assert StageResults(i, e) == [];
        assert Permutation([], 0) && Permute(StageResults(i, e), []) == [];
        return [];
      }
      SetTestDefaults(tests);
      if stages[i].parallel {
        output := RunStageParallel(tests[..], (j: nat) => e.reply(i, j));
      } else {
        output := RunStageSequential(tests[..], (j: nat) => e.reply(i, j));
      }
    }
  }

  /** Nothing is lost over a whole run: as many items as tests selected, each with its own configuration. */
  lemma {:induction false} NothingLost(parts: seq<seq<Test>>, parallel: seq<bool>, results: seq<seq<Test>>)
    requires |parts| == |parallel| == |results|
    requires forall i :: 0 <= i < |parts| ==> IsOutput(parts[i], parallel[i], results[i])
    ensures multiset(Flatten(parts)) == multiset(Flatten(results))
    ensures (forall i :: 0 <= i < |parts| ==> !parallel[i]) ==> Flatten(parts) == Flatten(results)
  {
    if parts != [] {
      var n := |parts| - 1;
      NothingLost(parts[..n], parallel[..n], results[..n]);
      OutputKeepsTests(parts[n], parallel[n], results[n]);
      assert Flatten(parts) == Flatten(parts[..n]) + parts[n];
      assert Flatten(results) == Flatten(results[..n]) + results[n];
    }
  }
}
