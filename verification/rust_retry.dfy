/**
  The Rust executor: `retry_fn` (a shared `Fn` operation) and `retry_fn_mut`
  (an `FnMut` operation that threads its own state).

  The operation is an oracle. For `retry_fn` it is the sequence of results
  the successive calls return; for `retry_fn_mut` it is a step function from
  the captured state to the next state and the call's result. Sleeping is an
  event in the trace; `time_unit` is a Duration counted in nanoseconds.
 */
module RustRetry {
  import opened Backoff
  import opened Search
  import opened Trace

  type u8 = x: int | 0 <= x < 256

  /** The largest std::time::Duration, in nanoseconds: u64::MAX seconds and 999_999_999 ns. */
  const MAX_DURATION_NANOS: nat := 18_446_744_073_709_551_615 * 1_000_000_000 + 999_999_999

  datatype Result<T, E> = Ok(value: T) | Err(error: E)

  datatype RetryErr<E> = NoAttempts | RetryFailed(cause: E)

  /** Whether call i of the oracle succeeds. */
  function OkAt<T, E>(f: seq<Result<T, E>>): (p: nat -> bool)
  {
    (i: nat) => i < |f| && f[i].Ok?
  }

  /**
    `time_unit.mul(power)` panics when the product leaves Duration's range;
    the executor is only defined when each of the first `sleeps` delays fits.
   */
  predicate DelaysFit(unit: nat, sleeps: nat)
  {
    forall i :: 0 <= i < sleeps ==> unit * Power(i) <= MAX_DURATION_NANOS
  }

  /**
    What `retry_fn` returns and does, stated declaratively: with a budget of
    zero nothing happens; otherwise the first successful call within the
    budget decides the result, and if there is none the last error does.
   */
  function Expected<T, E>(attempts: u8, unit: nat, f: seq<Result<T, E>>): (r: Run<Result<T, RetryErr<E>>>)
    requires attempts <= |f|
    ensures r.outcome == Err(NoAttempts) <==> attempts == 0
    ensures r.outcome.Ok? ==> exists k :: 0 <= k < attempts && f[k] == Ok(r.outcome.value)
    ensures 0 < attempts && r.outcome.Err? ==>
              r.outcome.error.RetryFailed? && f[attempts - 1] == Err(r.outcome.error.cause)
  {
    if attempts == 0 then
      Run(Err(NoAttempts), [])
    else
      var k := FirstWhere(attempts, OkAt(f));
      if k < attempts then
        assert f[k] == Ok(f[k].value);
        Run(Ok(f[k].value), FailedRounds(k, RustShift, unit) + [Call])
      else
        assert !OkAt(f)(attempts - 1);
        Run(Err(RetryFailed(f[attempts - 1].error)), FailedRounds(attempts, RustShift, unit))
  }

  /**
    `retry_fn`, statement by statement: the first call outside the loop, then
    `for _ in 1..attempts`, a sleep and a plain shift after every failure, and
    the final match on the last result.
   */
  method RetryFn<T, E>(attempts: u8, unit: nat, f: seq<Result<T, E>>)
    returns (r: Result<T, RetryErr<E>>, trace: Trace)
    requires attempts <= |f|
    requires DelaysFit(unit, |Sleeps(Expected(attempts, unit, f).trace)|)
    ensures Run(r, trace) == Expected(attempts, unit, f)
  {
    var power: u32 := 1;
    if attempts < 1 {
      return Err(NoAttempts), [];
    }
    var res := f[0];
    trace := [Call];
    if res.Ok? {
      FirstWhereUnique(attempts, OkAt(f), 0);
      return Ok(res.value), trace;
    }
    trace := trace + [Sleep(unit * power)];
    power := Shl1(power);
    for i := 1 to attempts
      invariant power == Power(i)
      invariant res == f[i - 1] && res.Err?
      invariant forall j :: 0 <= j < i ==> !OkAt(f)(j)
      invariant trace == FailedRounds(i, RustShift, unit)
    {
      res := f[i];
      trace := trace + [Call];
      if res.Ok? {
        FirstWhereUnique(attempts, OkAt(f), i);
        return Ok(res.value), trace;
      }
      trace := trace + [Sleep(unit * power)];
      power := Shl1(power);
    }
    FirstWhereUnique(attempts, OkAt(f), attempts);
    // The `Ok(v)` arm of the final match is dead: the loop only falls through on an error.
    assert res.Err?;
    r := Err(RetryFailed(res.error));
  }

  /** The results an `FnMut` operation returns over n calls, starting from state s. */
  function Results<S, T, E>(step: S -> (S, Result<T, E>), s: S, n: nat): (r: seq<Result<T, E>>)
    ensures |r| == n
  {
    if n == 0 then [] else [step(s).1] + Results(step, step(s).0, n - 1)
  }

  /** The state an `FnMut` operation has reached after i calls. */
  function StateAfter<S, T, E>(step: S -> (S, Result<T, E>), s: S, i: nat): (si: S)
  {
    if i == 0 then s else step(StateAfter(step, s, i - 1)).0
  }

  lemma {:induction false} StateAfterShift<S, T, E>(step: S -> (S, Result<T, E>), s: S, i: nat)
    ensures StateAfter(step, step(s).0, i) == StateAfter(step, s, i + 1)
  {
    if i > 0 {
      StateAfterShift(step, s, i - 1);
    }
  }

  /** Call i of an `FnMut` operation sees the state left by the i calls before it. */
  lemma {:induction false} ResultsThreadState<S, T, E>(step: S -> (S, Result<T, E>), s: S, n: nat)
    ensures forall i :: 0 <= i < n ==> Results(step, s, n)[i] == step(StateAfter(step, s, i)).1
  {
    if n > 0 {
      ResultsThreadState(step, step(s).0, n - 1);
      forall i | 0 < i < n
        ensures Results(step, s, n)[i] == step(StateAfter(step, s, i)).1
      {
        StateAfterShift(step, s, i - 1);
      }
    }
  }

  /**
    `retry_fn_mut`, statement by statement, with the operation's state
    threaded from call to call. It returns and does exactly what `retry_fn`
    does on the sequence of results the operation produces, and it leaves the
    operation in the state reached after as many steps as there were calls.
    The `for _ in 1..attempts` loop is `RetryFnMutLoop`.
   */
  method RetryFnMut<S, T, E>(attempts: u8, unit: nat, step: S -> (S, Result<T, E>), s0: S)
    returns (r: Result<T, RetryErr<E>>, trace: Trace, sN: S)
    requires DelaysFit(unit, |Sleeps(Expected(attempts, unit, Results(step, s0, attempts)).trace)|)
    ensures Run(r, trace) == Expected(attempts, unit, Results(step, s0, attempts))
    ensures sN == StateAfter(step, s0, CallCount(trace))
  {
    ghost var fs := Results(step, s0, attempts);
    ResultsThreadState(step, s0, attempts);
    var power: u32 := 1;
    if attempts < 1 {
      return Err(NoAttempts), [], s0;
    }
    var call := step(s0);
    var s := call.0;
    var res := call.1;
    assert res == fs[0];
    trace := [Call];
    if res.Ok? {
      FirstWhereUnique(attempts, OkAt(fs), 0);
      SucceededAfter(0, RustShift, unit);
      return Ok(res.value), trace, s;
    }
    trace := trace + [Sleep(unit * power)];
    power := Shl1(power);
    r, trace, sN := RetryFnMutLoop(attempts, unit, step, s0, s, res, power, trace);
  }

  /**
    The loop of `retry_fn_mut`, entered after the first call failed and was
    slept on: each further call, its early return on success, the sleep and
    shift after a failure, and the final match on the last result.
   */
  method RetryFnMutLoop<S, T, E>(attempts: u8, unit: nat, step: S -> (S, Result<T, E>), s0: S,
                                 s1: S, res1: Result<T, E>, power1: u32, trace1: Trace)
    returns (r: Result<T, RetryErr<E>>, trace: Trace, sN: S)
    requires 0 < attempts
    requires s1 == StateAfter(step, s0, 1)
    requires res1 == step(s0).1 && res1.Err?
    requires power1 == Power(1)
    requires trace1 == FailedRounds(1, RustShift, unit)
    ensures Run(r, trace) == Expected(attempts, unit, Results(step, s0, attempts))
    ensures sN == StateAfter(step, s0, CallCount(trace))
  {
    ghost var fs := Results(step, s0, attempts);
    ResultsThreadState(step, s0, attempts);
    assert !OkAt(fs)(0);
    var s, res, power := s1, res1, power1;
    trace := trace1;
    for i := 1 to attempts
      invariant power == Power(i)
      invariant s == StateAfter(step, s0, i)
      invariant res == fs[i - 1] && res.Err?
      invariant forall j :: 0 <= j < i ==> !OkAt(fs)(j)
      invariant trace == FailedRounds(i, RustShift, unit)
    {
      var call := step(s);
      s := call.0;
      res := call.1;
      assert res == fs[i];
      trace := trace + [Call];
      if res.Ok? {
        FirstWhereUnique(attempts, OkAt(fs), i);
        SucceededAfter(i, RustShift, unit);
        return Ok(res.value), trace, s;
      }
      trace := trace + [Sleep(unit * power)];
      power := Shl1(power);
    }
    FirstWhereUnique(attempts, OkAt(fs), attempts);
    FailedRoundsCalls(attempts, RustShift, unit);
    assert res.Err?;
    r := Err(RetryFailed(res.error));
    sN := s;
  }

  /** A budget of zero: `NoAttempts`, without calling the operation or sleeping. */
  lemma ZeroBudget<T, E>(unit: nat, f: seq<Result<T, E>>)
    ensures Expected(0, unit, f).outcome == Err(NoAttempts)
    ensures CallCount(Expected(0, unit, f).trace) == 0
    ensures Sleeps(Expected(0, unit, f).trace) == []
  {
  }

  /**
    If call k is the first to succeed, its value is returned after exactly
    k + 1 calls and k sleeps, and the last thing that happened is that call.
   */
  lemma FirstSuccessWins<T, E>(attempts: u8, unit: nat, f: seq<Result<T, E>>, k: nat)
    requires attempts <= |f|
    requires k < attempts && f[k].Ok?
    requires forall j :: 0 <= j < k ==> f[j].Err?
    ensures Expected(attempts, unit, f).outcome == Ok(f[k].value)
    ensures CallCount(Expected(attempts, unit, f).trace) == k + 1
    ensures |Sleeps(Expected(attempts, unit, f).trace)| == k
    ensures Expected(attempts, unit, f).trace[|Expected(attempts, unit, f).trace| - 1] == Call
  {
    FirstWhereUnique(attempts, OkAt(f), k);
    SucceededAfter(k, RustShift, unit);
    FailedRoundsShape(k, RustShift, unit);
  }

  /**
    If every call fails, the error of the LAST call is reported, after
    `attempts` calls and `attempts` sleeps: the final failure is slept on too.
   */
  lemma LastErrorReported<T, E>(attempts: u8, unit: nat, f: seq<Result<T, E>>)
    requires 0 < attempts <= |f|
    requires forall j :: 0 <= j < attempts ==> f[j].Err?
    ensures Expected(attempts, unit, f).outcome == Err(RetryFailed(f[attempts - 1].error))
    ensures CallCount(Expected(attempts, unit, f).trace) == attempts
    ensures |Sleeps(Expected(attempts, unit, f).trace)| == attempts
    ensures Expected(attempts, unit, f).trace[|Expected(attempts, unit, f).trace| - 1].Sleep?
  {
    FirstWhereUnique(attempts, OkAt(f), attempts);
    FailedRoundsShape(attempts, RustShift, unit);
  }

  /**
    The i-th sleep lasts `time_unit * (2^i mod 2^32)`: 1, 2, 4, ... units,
    then nothing from the 33rd sleep on.
   */
  lemma SleepSchedule<T, E>(attempts: u8, unit: nat, f: seq<Result<T, E>>)
    requires attempts <= |f|
    ensures forall i :: 0 <= i < |Sleeps(Expected(attempts, unit, f).trace)| ==>
              Sleeps(Expected(attempts, unit, f).trace)[i] == unit * (Pow2(i) % TWO_TO_THE_32)
    ensures forall i :: 32 <= i < |Sleeps(Expected(attempts, unit, f).trace)| ==>
              Sleeps(Expected(attempts, unit, f).trace)[i] == 0
  {
    var run := Expected(attempts, unit, f);
    if attempts > 0 {
      var k := FirstWhere(attempts, OkAt(f));
      var n := if k < attempts then k else attempts as nat;
      FailedRoundsShape(n, RustShift, unit);
      if k < attempts {
        SucceededAfter(k, RustShift, unit);
      }
      assert Sleeps(run.trace) == Sleeps(FailedRounds(n, RustShift, unit));
      forall i | 0 <= i < |Sleeps(run.trace)|
        ensures Sleeps(run.trace)[i] == unit * (Pow2(i) % TWO_TO_THE_32)
        ensures 32 <= i ==> Sleeps(run.trace)[i] == 0
      {
        PowerClosedForm(i);
      }
    }
  }

  /**
    At most `attempts` calls (so at most 255); the result is `Ok` exactly when
    some call within the budget succeeds; and every call but a successful
    last one is followed by a sleep.
   */
  lemma CallBudget<T, E>(attempts: u8, unit: nat, f: seq<Result<T, E>>)
    requires attempts <= |f|
    ensures CallCount(Expected(attempts, unit, f).trace) <= attempts <= 255
    ensures Expected(attempts, unit, f).outcome.Ok? <==> exists k :: 0 <= k < attempts && f[k].Ok?
    ensures |Sleeps(Expected(attempts, unit, f).trace)| ==
              CallCount(Expected(attempts, unit, f).trace) - (if Expected(attempts, unit, f).outcome.Ok? then 1 else 0)
  {
    if attempts > 0 {
      var k := FirstWhere(attempts, OkAt(f));
      forall j | 0 <= j < k
        ensures f[j].Err?
      {
        assert !OkAt(f)(j);
      }
      if k < attempts {
        FirstSuccessWins(attempts, unit, f, k);
      } else {
        LastErrorReported(attempts, unit, f);
      }
    }
  }
}
