/** What `Runner::test` (itf/src/runner.rs) promises about the calls it makes:
    their order, their arguments, how many there are, that the run stops at
    the first `Err` or failed invariant, and that one actual state is threaded
    through `init`, every `step` and every state invariant. */
module RunnerProperties {
  import opened Wrappers
  import opened TraceRunner

  // ---------------------------------------------------------------------------
  // Views of a log
  // ---------------------------------------------------------------------------

  datatype Op = Init | Step | CheckResult | CheckState

  function OpOf<A, E, R, X>(c: Call<A, E, R, X>): Op {
    match c
    case InitCall(_, _) => Init
    case StepCall(_, _, _, _, _) => Step
    case ResultCheck(_, _, _, _) => CheckResult
    case StateCheck(_, _, _, _) => CheckState
  }

  /** Which operation each call was, and about which trace index. */
  function Tags<A, E, R, X>(log: seq<Call<A, E, R, X>>): (t: seq<(Op, nat)>)
    ensures |t| == |log|
  {
    seq(|log|, k requires 0 <= k < |log| => (OpOf(log[k]), log[k].At()))
  }

  /** The calls of a run over n expected states that passes: `init` and the
      state invariant on state 0, then `step`, the result invariant and the
      state invariant on each later state, in increasing order. */
  function Schedule(n: nat): seq<(Op, nat)> {
    if n == 0 then [] else [(Init, 0), (CheckState, 0)] + StepSchedule(1, n)
  }

  function StepSchedule(i: nat, n: nat): seq<(Op, nat)>
    decreases n - i
  {
    if i >= n then [] else [(Step, i), (CheckResult, i), (CheckState, i)] + StepSchedule(i + 1, n)
  }

  /** How many calls of `step` the log holds. */
  function StepCount<A, E, R, X>(log: seq<Call<A, E, R, X>>): nat {
    if log == [] then 0
    else StepCount(log[..|log| - 1]) + (if log[|log| - 1].StepCall? then 1 else 0)
  }

  /** The error an operation returned, if it returned one. */
  function ErrorOf<A, E, R, X>(c: Call<A, E, R, X>): Option<X> {
    match c
    case InitCall(_, made) => if made.Err? then Some(made.error) else None
    case StepCall(_, _, _, _, result) => if result.Err? then Some(result.error) else None
    case ResultCheck(_, _, _, verdict) => if verdict.Err? then Some(verdict.error) else None
    case StateCheck(_, _, _, verdict) => if verdict.Err? then Some(verdict.error) else None
  }

  /** The call is the check of invariant `which` at index i, and it returned false. */
  predicate IsFailedCheck<A, E, R, X>(c: Call<A, E, R, X>, i: nat, which: Invariant) {
    match which
    case ResultInvariant => c.ResultCheck? && c.index == i && c.verdict == Ok(false)
    case StateInvariant => c.StateCheck? && c.index == i && c.verdict == Ok(false)
  }

  /** Every call but the last succeeded, and the last one explains the outcome:
      for `Passed` it succeeded too, for `Failed(e)` it returned `Err(e)`, for
      `InvariantFailed(i, w)` it is the check of w at i that returned false. */
  ghost predicate FailFast<S, A, E, R, X>(run: Run<S, A, E, R, X>) {
    (forall k :: 0 <= k < |run.log| - 1 ==> run.log[k].Succeeded()) &&
    match run.outcome
    case Passed => forall k :: 0 <= k < |run.log| ==> run.log[k].Succeeded()
    case Failed(e) => |run.log| > 0 && ErrorOf(run.log[|run.log| - 1]) == Some(e)
    case InvariantFailed(i, w) => |run.log| > 0 && IsFailedCheck(run.log[|run.log| - 1], i, w)
  }

  /** The actual state most recently produced by `init` or `step` in `log`,
      or `start` if there is none. */
  function CurrentActual<A, E, R, X>(start: Option<A>, log: seq<Call<A, E, R, X>>): Option<A> {
    if log == [] then start
    else
      match log[|log| - 1]
      case InitCall(_, made) => if made.Ok? then Some(made.value) else None
      case StepCall(_, _, _, after, _) => Some(after)
      case _ => CurrentActual(start, log[..|log| - 1])
  }

  /** One actual state threads through the run: every `step` and every state
      invariant is given the state the latest `init` or `step` left, and every
      result invariant is given the result of the `step` just before it. */
  ghost predicate ThreadedFrom<A, E, R, X>(start: Option<A>, log: seq<Call<A, E, R, X>>) {
    forall k :: 0 <= k < |log| ==> ThreadedAt(start, log, k)
  }

  /** The call at position k of `log` gets the arguments threading demands. */
  ghost predicate ThreadedAt<A, E, R, X>(start: Option<A>, log: seq<Call<A, E, R, X>>, k: nat)
    requires k < |log|
  {
    (log[k].StepCall? ==> CurrentActual(start, log[..k]) == Some(log[k].before)) &&
    (log[k].StateCheck? ==> CurrentActual(start, log[..k]) == Some(log[k].actual)) &&
    (log[k].ResultCheck? ==> 0 < k && log[k - 1].StepCall? && log[k - 1].result == Ok(log[k].stepResult))
  }

  // ---------------------------------------------------------------------------
  // Logs that are concatenated
  // ---------------------------------------------------------------------------

  lemma TagsAppend<A, E, R, X>(p: seq<Call<A, E, R, X>>, q: seq<Call<A, E, R, X>>)
    ensures Tags(p + q) == Tags(p) + Tags(q)
  {
    assert forall k :: 0 <= k < |p| ==> (p + q)[k] == p[k];
    assert forall k :: |p| <= k < |p| + |q| ==> (p + q)[k] == q[k - |p|];
  }

  lemma {:induction false} StepCountAppend<A, E, R, X>(p: seq<Call<A, E, R, X>>, q: seq<Call<A, E, R, X>>)
    ensures StepCount(p + q) == StepCount(p) + StepCount(q)
    decreases |q|
  {
    if q == [] {
      assert p + q == p;
    } else {
      var q' := q[..|q| - 1];
      assert (p + q)[..|p + q| - 1] == p + q';
      StepCountAppend(p, q');
    }
  }

  lemma {:induction false} CurrentActualAppend<A, E, R, X>(start: Option<A>, p: seq<Call<A, E, R, X>>, q: seq<Call<A, E, R, X>>)
    ensures CurrentActual(start, p + q) == CurrentActual(CurrentActual(start, p), q)
    decreases |q|
  {
    if q == [] {
      assert p + q == p;
    } else {
      var q' := q[..|q| - 1];
      assert (p + q)[..|p + q| - 1] == p + q';
      CurrentActualAppend(start, p, q');
    }
  }

  lemma ThreadedAppend<A, E, R, X>(start: Option<A>, p: seq<Call<A, E, R, X>>, q: seq<Call<A, E, R, X>>)
    requires ThreadedFrom(start, p)
    requires ThreadedFrom(CurrentActual(start, p), q)
    requires q != [] ==> !q[0].ResultCheck?
    ensures ThreadedFrom(start, p + q)
  {
    var pq := p + q;
    forall k | 0 <= k < |pq|
      ensures ThreadedAt(start, pq, k)
    {
      if k < |p| {
        assert ThreadedAt(start, p, k);
        assert pq[..k] == p[..k];
        assert pq[k] == p[k];
        if k > 0 { assert pq[k - 1] == p[k - 1]; }
      } else {
        var j := k - |p|;
        assert ThreadedAt(CurrentActual(start, p), q, j);
        assert pq[k] == q[j];
        assert pq[..k] == p + q[..j];
        CurrentActualAppend(start, p, q[..j]);
        if j > 0 { assert pq[k - 1] == q[j - 1]; }
      }
    }
  }

  lemma FailFastAfter<S, A, E, R, X>(p: seq<Call<A, E, R, X>>, rest: Run<S, A, E, R, X>)
    requires forall k :: 0 <= k < |p| ==> p[k].Succeeded()
    requires FailFast(rest)
    requires !rest.outcome.Passed? ==> |rest.log| > 0
    ensures FailFast(After(p, rest))
  {
    var log := p + rest.log;
    assert forall k :: 0 <= k < |p| ==> log[k] == p[k];
    assert forall k :: |p| <= k < |log| ==> log[k] == rest.log[k - |p|];
  }

  // ---------------------------------------------------------------------------
  // The loop over the later states
  // ---------------------------------------------------------------------------

  lemma {:induction false} StepsSchedule<S, A, E, R, X>(runner: Runner<S, A, E, R, X>, self: S, actual: A, trace: seq<E>, i: nat)
    requires 1 <= i <= |trace|
    ensures Tags(Steps(runner, self, actual, trace, i).log) <= StepSchedule(i, |trace|)
    ensures Steps(runner, self, actual, trace, i).outcome.Passed? ==>
      Tags(Steps(runner, self, actual, trace, i).log) == StepSchedule(i, |trace|)
    ensures forall c :: c in Steps(runner, self, actual, trace, i).log ==>
      i <= c.At() < |trace| && c.expected == trace[c.At()]
    decreases |trace| - i
  {
    var run := Steps(runner, self, actual, trace, i);
    if i < |trace| {
      var (s1, a1, res) := runner.step(self, actual, trace[i]);
      if res.Ok? {
        var rv := runner.resultInvariant(s1, res.value, trace[i]);
        if rv == Ok(true) {
          var sv := runner.stateInvariant(s1, a1, trace[i]);
          if sv == Ok(true) {
            var chunk := [StepCall(i, trace[i], actual, a1, res), ResultCheck(i, trace[i], res.value, rv),
                          StateCheck(i, trace[i], a1, sv)];
            var rest := Steps(runner, s1, a1, trace, i + 1);
            StepsSchedule(runner, s1, a1, trace, i + 1);
            assert run.log == chunk + rest.log;
            TagsAppend(chunk, rest.log);
            assert Tags(chunk) == [(Step, i), (CheckResult, i), (CheckState, i)];
          }
        }
      }
    }
  }

  lemma {:induction false} StepsCount<S, A, E, R, X>(runner: Runner<S, A, E, R, X>, self: S, actual: A, trace: seq<E>, i: nat)
    requires 1 <= i <= |trace|
    ensures Steps(runner, self, actual, trace, i).outcome.Passed? ==>
      StepCount(Steps(runner, self, actual, trace, i).log) == |trace| - i
    decreases |trace| - i
  {
    var run := Steps(runner, self, actual, trace, i);
    if i < |trace| && run.outcome.Passed? {
      var (s1, a1, res) := runner.step(self, actual, trace[i]);
      var rv := runner.resultInvariant(s1, res.value, trace[i]);
      var sv := runner.stateInvariant(s1, a1, trace[i]);
      var chunk := [StepCall(i, trace[i], actual, a1, res), ResultCheck(i, trace[i], res.value, rv),
                    StateCheck(i, trace[i], a1, sv)];
      var rest := Steps(runner, s1, a1, trace, i + 1);
      StepsCount(runner, s1, a1, trace, i + 1);
      assert run.log == chunk + rest.log;
      StepCountAppend(chunk, rest.log);
      assert chunk[..2] == chunk[..3][..2] && chunk[..2][..1] == [chunk[0]] && [chunk[0]][..0] == [];
      assert StepCount([chunk[0]]) == 1;
      assert StepCount(chunk[..2]) == 1;
    }
  }

  lemma {:induction false} StepsFailFast<S, A, E, R, X>(runner: Runner<S, A, E, R, X>, self: S, actual: A, trace: seq<E>, i: nat)
    requires 1 <= i <= |trace|
    ensures FailFast(Steps(runner, self, actual, trace, i))
    ensures !Steps(runner, self, actual, trace, i).outcome.Passed? ==> |Steps(runner, self, actual, trace, i).log| > 0
    decreases |trace| - i
  {
    if i < |trace| {
      var (s1, a1, res) := runner.step(self, actual, trace[i]);
      if res.Ok? {
        var rv := runner.resultInvariant(s1, res.value, trace[i]);
        if rv == Ok(true) {
          var sv := runner.stateInvariant(s1, a1, trace[i]);
          if sv == Ok(true) {
            var chunk := [StepCall(i, trace[i], actual, a1, res), ResultCheck(i, trace[i], res.value, rv),
                          StateCheck(i, trace[i], a1, sv)];
            StepsFailFast(runner, s1, a1, trace, i + 1);
            FailFastAfter(chunk, Steps(runner, s1, a1, trace, i + 1));
          }
        }
      }
    }
  }

  lemma {:induction false} StepsThreaded<S, A, E, R, X>(runner: Runner<S, A, E, R, X>, self: S, actual: A, trace: seq<E>, i: nat)
    requires 1 <= i <= |trace|
    ensures ThreadedFrom(Some(actual), Steps(runner, self, actual, trace, i).log)
    ensures var log := Steps(runner, self, actual, trace, i).log; log != [] ==> !log[0].ResultCheck?
    decreases |trace| - i
  {
    var run := Steps(runner, self, actual, trace, i);
    if i < |trace| {
      var (s1, a1, res) := runner.step(self, actual, trace[i]);
      var stepCall := StepCall(i, trace[i], actual, a1, res);
      assert [stepCall][..0] == [];
      if res.Ok? {
        var rv := runner.resultInvariant(s1, res.value, trace[i]);
        var rcheck := ResultCheck(i, trace[i], res.value, rv);
        assert [stepCall, rcheck][..1] == [stepCall];
        if rv == Ok(true) {
          var sv := runner.stateInvariant(s1, a1, trace[i]);
          var chunk := [stepCall, rcheck, StateCheck(i, trace[i], a1, sv)];
          assert chunk[..2] == [stepCall, rcheck];
          assert chunk[..1] == [stepCall];
          assert CurrentActual(Some(actual), [stepCall]) == Some(a1);
          assert CurrentActual(Some(actual), [stepCall, rcheck]) == Some(a1);
          assert CurrentActual(Some(actual), chunk) == Some(a1);
          assert ThreadedFrom(Some(actual), chunk);
          if sv == Ok(true) {
            StepsThreaded(runner, s1, a1, trace, i + 1);
            ThreadedAppend(Some(actual), chunk, Steps(runner, s1, a1, trace, i + 1).log);
          }
        }
      }
    }
  }

  // ---------------------------------------------------------------------------
  // The properties of `test`
  // ---------------------------------------------------------------------------

  /** An empty trace passes without calling any operation. */
  lemma EmptyTracePasses<S, A, E, R, X>(runner: Runner<S, A, E, R, X>, self: S)
    ensures TestRun(runner, self, []) == Run(Passed, self, [])
  {
  }

  /** The calls happen in the order of the schedule and stop early only at a
      failure; each call is given the expected state of its own index. In
      particular `init` is called once, on trace[0], followed by the state
      invariant and never by the result invariant. */
  lemma RunFollowsSchedule<S, A, E, R, X>(runner: Runner<S, A, E, R, X>, self: S, trace: seq<E>)
    ensures Tags(TestRun(runner, self, trace).log) <= Schedule(|trace|)
    ensures TestRun(runner, self, trace).outcome.Passed? ==> Tags(TestRun(runner, self, trace).log) == Schedule(|trace|)
    ensures forall c :: c in TestRun(runner, self, trace).log ==> c.At() < |trace| && c.expected == trace[c.At()]
  {
    var run := TestRun(runner, self, trace);
    if |trace| > 0 {
      var (s1, made) := runner.init(self, trace[0]);
      if made.Ok? {
        var verdict := runner.stateInvariant(s1, made.value, trace[0]);
        var head := [InitCall(trace[0], made), StateCheck(0, trace[0], made.value, verdict)];
        assert Tags(head) == [(Init, 0), (CheckState, 0)];
        if verdict == Ok(true) {
          var rest := Steps(runner, s1, made.value, trace, 1);
          StepsSchedule(runner, s1, made.value, trace, 1);
          assert run.log == head + rest.log;
          TagsAppend(head, rest.log);
        }
      } else {
        assert Tags(run.log) == [(Init, 0)];
      }
    }
  }

  /** A run that passes called `step` once for each state after the first. */
  lemma PassedStepCount<S, A, E, R, X>(runner: Runner<S, A, E, R, X>, self: S, trace: seq<E>)
    requires |trace| > 0
    ensures TestRun(runner, self, trace).outcome.Passed? ==> StepCount(TestRun(runner, self, trace).log) == |trace| - 1
  {
    var run := TestRun(runner, self, trace);
    if run.outcome.Passed? {
      var (s1, made) := runner.init(self, trace[0]);
      var verdict := runner.stateInvariant(s1, made.value, trace[0]);
      var head := [InitCall(trace[0], made), StateCheck(0, trace[0], made.value, verdict)];
      var rest := Steps(runner, s1, made.value, trace, 1);
      StepsCount(runner, s1, made.value, trace, 1);
      assert run.log == head + rest.log;
      StepCountAppend(head, rest.log);
      assert head[..1] == [head[0]] && [head[0]][..0] == [];
      assert StepCount([head[0]]) == 0;
    }
  }

  /** Fail-fast: every call but the last succeeded; a run that passes had every
      operation return normally and every invariant return true; a failed
      invariant is the last call, and an `Err` is what the last call returned. */
  lemma RunIsFailFast<S, A, E, R, X>(runner: Runner<S, A, E, R, X>, self: S, trace: seq<E>)
    ensures FailFast(TestRun(runner, self, trace))
  {
    if |trace| > 0 {
      var (s1, made) := runner.init(self, trace[0]);
      if made.Ok? {
        var verdict := runner.stateInvariant(s1, made.value, trace[0]);
        if verdict == Ok(true) {
          var head := [InitCall(trace[0], made), StateCheck(0, trace[0], made.value, verdict)];
          StepsFailFast(runner, s1, made.value, trace, 1);
          FailFastAfter(head, Steps(runner, s1, made.value, trace, 1));
        }
      }
    }
  }

  /** A failed invariant at index i: no call is about a later state, so no
      later `step` ran. */
  lemma NothingAfterFailure<S, A, E, R, X>(runner: Runner<S, A, E, R, X>, self: S, trace: seq<E>)
    ensures TestRun(runner, self, trace).outcome.InvariantFailed? ==>
      var i := TestRun(runner, self, trace).outcome.index;
      i < |trace| && forall c :: c in TestRun(runner, self, trace).log ==> c.At() <= i
  {
    var run := TestRun(runner, self, trace);
    if run.outcome.InvariantFailed? {
      RunFollowsSchedule(runner, self, trace);
      RunIsFailFast(runner, self, trace);
      var i := run.outcome.index;
      var tags := Tags(run.log);
      var n := |run.log|;
      assert tags[n - 1].1 == i;
      ScheduleSorted(|trace|);
      var sched := Schedule(|trace|);
      assert tags == sched[..n];
      forall c | c in run.log
        ensures c.At() <= i
      {
        var k :| 0 <= k < n && run.log[k] == c;
        assert tags[k] == sched[k] && tags[n - 1] == sched[n - 1];
      }
    }
  }

  /** The schedule visits the indices in increasing order. */
  lemma ScheduleSorted(n: nat)
    ensures forall a, b :: 0 <= a <= b < |Schedule(n)| ==> Schedule(n)[a].1 <= Schedule(n)[b].1
    ensures forall a :: 0 <= a < |Schedule(n)| ==> Schedule(n)[a].1 < n
  {
    if n > 0 {
      StepScheduleSorted(1, n);
    }
  }

  lemma {:induction false} StepScheduleSorted(i: nat, n: nat)
    requires i >= 1
    ensures forall a, b :: 0 <= a <= b < |StepSchedule(i, n)| ==> StepSchedule(i, n)[a].1 <= StepSchedule(i, n)[b].1
    ensures forall a :: 0 <= a < |StepSchedule(i, n)| ==> i <= StepSchedule(i, n)[a].1 < n
    decreases n - i
  {
    if i < n {
      StepScheduleSorted(i + 1, n);
    }
  }

  /** One actual state: the one `init` made is the one the first `step` and
      the first state invariant get, and each `step`'s new state is the one the
      next `step` and the state invariant after it get. */
  lemma RunIsThreaded<S, A, E, R, X>(runner: Runner<S, A, E, R, X>, self: S, trace: seq<E>)
    ensures ThreadedFrom(None, TestRun(runner, self, trace).log)
  {
    var run := TestRun(runner, self, trace);
    if |trace| > 0 {
      var (s1, made) := runner.init(self, trace[0]);
      var initCall := InitCall(trace[0], made);
      assert [initCall][..0] == [];
      if made.Ok? {
        var verdict := runner.stateInvariant(s1, made.value, trace[0]);
        var head := [initCall, StateCheck(0, trace[0], made.value, verdict)];
        assert head[..1] == [initCall];
        assert ThreadedFrom(None, head);
        if verdict == Ok(true) {
          assert CurrentActual(None, head) == Some(made.value);
          StepsThreaded(runner, s1, made.value, trace, 1);
          ThreadedAppend(None, head, Steps(runner, s1, made.value, trace, 1).log);
        }
      }
    }
  }

  /** The source's own example: three expected states, the state invariant
      false on the second. The run fails at index 1 and `step` is never called
      on the third state. */
  lemma ThreeStateExample<S, A, E, R, X>(runner: Runner<S, A, E, R, X>, self: S, trace: seq<E>)
    requires |trace| == 3
    requires forall s, e :: runner.init(s, e).1.Ok?
    requires forall s, a, e :: runner.step(s, a, e).2.Ok?
    requires forall s, r, e :: runner.resultInvariant(s, r, e) == Ok(true)
    requires forall s, a :: runner.stateInvariant(s, a, trace[0]) == Ok(true)
    requires forall s, a :: runner.stateInvariant(s, a, trace[1]) == Ok(false)
    ensures TestRun(runner, self, trace).outcome == InvariantFailed(1, StateInvariant)
    ensures forall c :: c in TestRun(runner, self, trace).log ==> !(c.StepCall? && c.index == 2)
  {
    var (s1, made) := runner.init(self, trace[0]);
    assert made.Ok?;
    assert runner.stateInvariant(s1, made.value, trace[0]) == Ok(true);
    var (s2, a2, res) := runner.step(s1, made.value, trace[1]);
    assert res.Ok?;
    assert runner.resultInvariant(s2, res.value, trace[1]) == Ok(true);
    assert runner.stateInvariant(s2, a2, trace[1]) == Ok(false);
    var second := Steps(runner, s1, made.value, trace, 1);
    assert second.outcome == InvariantFailed(1, StateInvariant);
    assert forall c :: c in second.log ==> c.At() == 1;
  }
}
