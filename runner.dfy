/** The trace-conformance runner of itf/src/runner.rs.

    The `Runner` trait's four operations are supplied by the caller; here they
    are the four function values of a `Runner`. `init` and `step` take
    `&mut self`, so they receive and return the runner's own state `S`;
    `step` also takes the actual state by `&mut`, so it returns the updated
    actual state. The invariants take `&self` and only read. An `assert!`
    that fails is the outcome `InvariantFailed`, an `Err` passed on by `?` is
    `Failed`.

    `TestRun` is the specification of one call of `test`; it also records,
    as a log, every call of an operation in the order they happen with its
    arguments and what it returned. `Test` is the driving loop of the source,
    proved to produce exactly that outcome, runner state and log. */
module TraceRunner {
  import opened Wrappers

  /** The four caller-supplied operations. */
  datatype Runner<!S, !A, !E, !R, X> = Runner(
    init: (S, E) -> (S, Result<A, X>),
    step: (S, A, E) -> (S, A, Result<R, X>),
    resultInvariant: (S, R, E) -> Result<bool, X>,
    stateInvariant: (S, A, E) -> Result<bool, X>)

  /** Which of the two `assert!`s failed. */
  datatype Invariant = ResultInvariant | StateInvariant

  /** How a run ends: `Ok(())`, an `Err` from an operation, or a failed
      `assert!` naming the trace index (0 is the initial state). */
  datatype Outcome<X> = Passed | Failed(error: X) | InvariantFailed(index: nat, which: Invariant)

  /** One call of an operation: its arguments (the expected state is
      trace[index]) and what it returned. */
  datatype Call<A, E, R, X> =
    | InitCall(expected: E, made: Result<A, X>)
    | StepCall(index: nat, expected: E, before: A, after: A, result: Result<R, X>)
    | ResultCheck(index: nat, expected: E, stepResult: R, verdict: Result<bool, X>)
    | StateCheck(index: nat, expected: E, actual: A, verdict: Result<bool, X>)
  {
    /** The trace index the call is about; `init` is about the first state. */
    function At(): nat {
      if InitCall? then 0 else index
    }

    /** The operation returned normally, and an invariant returned true. */
    predicate Succeeded() {
      match this
      case InitCall(_, made) => made.Ok?
      case StepCall(_, _, _, _, result) => result.Ok?
      case ResultCheck(_, _, _, verdict) => verdict == Ok(true)
      case StateCheck(_, _, _, verdict) => verdict == Ok(true)
    }
  }

  /** The result of a run: its outcome, the runner's state afterwards, and the
      calls it made. */
  datatype Run<S, A, E, R, X> = Run(outcome: Outcome<X>, self: S, log: seq<Call<A, E, R, X>>)

  /** The calls in `log` happen first, then those of `rest`. */
  function After<S, A, E, R, X>(log: seq<Call<A, E, R, X>>, rest: Run<S, A, E, R, X>): Run<S, A, E, R, X> {
    Run(rest.outcome, rest.self, log + rest.log)
  }

  /** `Runner::test` on `trace`, starting from the runner state `self`. */
  function TestRun<S, A, E, R, X>(runner: Runner<S, A, E, R, X>, self: S, trace: seq<E>): (run: Run<S, A, E, R, X>)
    ensures |trace| == 0 ==> run == Run(Passed, self, [])
    ensures |trace| > 0 ==> 0 < |run.log| <= 3 * |trace| - 1
    ensures run.outcome.InvariantFailed? ==> run.outcome.index < |trace|
  {
    if |trace| == 0 then Run(Passed, self, [])
    else
      var (s1, made) := runner.init(self, trace[0]);
      var initCall := InitCall(trace[0], made);
      match made
      case Err(e) => Run(Failed(e), s1, [initCall])
      case Ok(actual) =>
        var verdict := runner.stateInvariant(s1, actual, trace[0]);
        var check := StateCheck(0, trace[0], actual, verdict);
        match verdict
        case Err(e) => Run(Failed(e), s1, [initCall, check])
        case Ok(holds) =>
          if !holds then Run(InvariantFailed(0, StateInvariant), s1, [initCall, check])
          else After([initCall, check], Steps(runner, s1, actual, trace, 1))
  }

  /** The iterations of the loop for indices i, i+1, ..., |trace|-1. */
  function Steps<S, A, E, R, X>(runner: Runner<S, A, E, R, X>, self: S, actual: A, trace: seq<E>, i: nat): (run: Run<S, A, E, R, X>)
    requires 1 <= i <= |trace|
    ensures |run.log| <= 3 * (|trace| - i)
    ensures run.outcome.InvariantFailed? ==> i <= run.outcome.index < |trace|
    ensures !run.outcome.Passed? ==> |run.log| > 0
    decreases |trace| - i
  {
    if i == |trace| then Run(Passed, self, [])
    else
      var (s1, a1, res) := runner.step(self, actual, trace[i]);
      var stepCall := StepCall(i, trace[i], actual, a1, res);
      match res
      case Err(e) => Run(Failed(e), s1, [stepCall])
      case Ok(r) =>
        var rv := runner.resultInvariant(s1, r, trace[i]);
        var rcheck := ResultCheck(i, trace[i], r, rv);
        match rv
        case Err(e) => Run(Failed(e), s1, [stepCall, rcheck])
        case Ok(rHolds) =>
          if !rHolds then Run(InvariantFailed(i, ResultInvariant), s1, [stepCall, rcheck])
          else
            var sv := runner.stateInvariant(s1, a1, trace[i]);
            var scheck := StateCheck(i, trace[i], a1, sv);
            match sv
            case Err(e) => Run(Failed(e), s1, [stepCall, rcheck, scheck])
            case Ok(sHolds) =>
              if !sHolds then Run(InvariantFailed(i, StateInvariant), s1, [stepCall, rcheck, scheck])
              else After([stepCall, rcheck, scheck], Steps(runner, s1, a1, trace, i + 1))
  }

  /** The part of `test` before the loop: `init` from trace[0], then the state
      invariant on the actual state it made. `Err(outcome)` when the run ends
      here; otherwise `Ok(actual)`, and the run goes on with the loop from
      index 1. */
  method Start<S, A, E, R, X>(runner: Runner<S, A, E, R, X>, self: S, trace: seq<E>)
    returns (started: Result<A, Outcome<X>>, selfAfter: S, ghost calls: seq<Call<A, E, R, X>>)
    requires |trace| > 0
    ensures started.Err? ==> TestRun(runner, self, trace) == Run(started.error, selfAfter, calls)
    ensures started.Err? ==> started.error == TestRun(runner, self, trace).outcome && !started.error.Passed?
    ensures started.Ok? ==>
      TestRun(runner, self, trace) == After(calls, Steps(runner, selfAfter, started.value, trace, 1))
  {
    var expected := trace[0];
    var initialised := runner.init(self, expected);
    selfAfter := initialised.0;
    var made := initialised.1;
    calls := [InitCall(expected, made)];
    if made.Err? {
      return Err(Failed(made.error)), selfAfter, calls;
    }
    var actual := made.value;
    var verdict := runner.stateInvariant(selfAfter, actual, expected);
    calls := calls + [StateCheck(0, expected, actual, verdict)];
    if verdict.Err? {
      return Err(Failed(verdict.error)), selfAfter, calls;
    }
    if !verdict.value {
      return Err(InvariantFailed(0, StateInvariant)), selfAfter, calls;
    }
    return Ok(actual), selfAfter, calls;
  }

  /** One pass of the loop body of `test` at index i: step the actual state
      against trace[i], then check the result invariant and the state
      invariant. `stop` is the outcome when the run ends at this index; `calls`
      are the calls made. */
  method StepAt<S, A, E, R, X>(runner: Runner<S, A, E, R, X>, self: S, actual: A, trace: seq<E>, i: nat)
    returns (stop: Option<Outcome<X>>, selfAfter: S, actualAfter: A, ghost calls: seq<Call<A, E, R, X>>)
    requires 1 <= i < |trace|
    ensures stop.Some? ==> Steps(runner, self, actual, trace, i) == Run(stop.value, selfAfter, calls)
    ensures stop.Some? ==> stop.value == Steps(runner, self, actual, trace, i).outcome && !stop.value.Passed?
    ensures stop.None? ==>
      Steps(runner, self, actual, trace, i) == After(calls, Steps(runner, selfAfter, actualAfter, trace, i + 1))
  {
    var expected := trace[i];
    var stepped := runner.step(self, actual, expected);
    selfAfter, actualAfter := stepped.0, stepped.1;
    var result := stepped.2;
    calls := [StepCall(i, expected, actual, actualAfter, result)];
    if result.Err? {
      return Some(Failed(result.error)), selfAfter, actualAfter, calls;
    }
    var rVerdict := runner.resultInvariant(selfAfter, result.value, expected);
    calls := calls + [ResultCheck(i, expected, result.value, rVerdict)];
    if rVerdict.Err? {
      return Some(Failed(rVerdict.error)), selfAfter, actualAfter, calls;
    }
    if !rVerdict.value {
      return Some(InvariantFailed(i, ResultInvariant)), selfAfter, actualAfter, calls;
    }
    var sVerdict := runner.stateInvariant(selfAfter, actualAfter, expected);
    calls := calls + [StateCheck(i, expected, actualAfter, sVerdict)];
    if sVerdict.Err? {
      return Some(Failed(sVerdict.error)), selfAfter, actualAfter, calls;
    }
    if !sVerdict.value {
      return Some(InvariantFailed(i, StateInvariant)), selfAfter, actualAfter, calls;
    }
    return None, selfAfter, actualAfter, calls;
  }

  /** The default method `test`: initialise from the first expected state,
      check the state invariant, then for every later expected state step the
      one actual state and check both invariants, stopping at the first `Err`
      or failed `assert!`. Returns the outcome and the runner state after the
      run; the ghost `log` is the calls made. */
  method Test<S, A, E, R, X>(runner: Runner<S, A, E, R, X>, self: S, trace: seq<E>)
    returns (outcome: Outcome<X>, selfAfter: S, ghost log: seq<Call<A, E, R, X>>)
    ensures Run(outcome, selfAfter, log) == TestRun(runner, self, trace)
    ensures outcome == TestRun(runner, self, trace).outcome && selfAfter == TestRun(runner, self, trace).self
  {
    if |trace| == 0 {
      return Passed, self, [];
    }
    var started;
    started, selfAfter, log := Start(runner, self, trace);
    if started.Err? {
      return started.error, selfAfter, log;
    }
    var actual := started.value;
    var i := 1;
    while i < |trace|
      invariant 1 <= i <= |trace|
      invariant TestRun(runner, self, trace) == After(log, Steps(runner, selfAfter, actual, trace, i))
      decreases |trace| - i
    {
      var stop, selfNext, actualNext;
      ghost var calls;
      stop, selfNext, actualNext, calls := StepAt(runner, selfAfter, actual, trace, i);
      log := log + calls;
      selfAfter, actual := selfNext, actualNext;
      if stop.Some? {
        return stop.value, selfAfter, log;
      }
      i := i + 1;
    }
    return Passed, selfAfter, log;
  }
}
