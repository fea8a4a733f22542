/**
  The C executor `retry_fn` and the constants and contract of its header.

  The operation `f` is an oracle: the sequence of return codes its successive
  calls produce, 0 meaning success. `usleep` is an oracle too: the sequence
  of outcomes of the successive sleep requests, a failure carrying the value
  `errno` holds afterwards. Sleeping is an event in the trace, with the number
  of microseconds requested.
 */
module CRetry {
  import opened Backoff
  import opened Search
  import opened Trace

  /** A C `int`, 32 bits wide on the platforms the code targets. */
  type int32 = x: int | -0x8000_0000 <= x < 0x8000_0000

  // Time units, all counted in microseconds.
  const MICROSECOND: u32 := 1
  const MILLISECOND: u32 := 1000
  const SECOND: u32 := 1000000

  /** Returned for a budget below one. */
  const ERR_NO_ATTEMPTS: int32 := -1

  /** The operation contract: 0 is success, any other code is failure. */
  predicate Succeeded(rc: int32)
  {
    rc == 0
  }

  /** An `errno` code: POSIX error numbers are positive. */
  type Errno = e: int | 0 < e < 0x8000_0000 witness 1

  /** What one `usleep` call did: slept, or returned -1 leaving a code in `errno`. */
  datatype SleepOutcome = Slept | SleepFailed(errno: Errno)

  /** Whether the loop ends at round i: its call succeeded or the sleep after it failed. */
  function StopsAt(f: seq<int32>, sl: seq<SleepOutcome>): (p: nat -> bool)
  {
    (i: nat) => (i < |f| && Succeeded(f[i])) || (i < |sl| && sl[i].SleepFailed?)
  }

  /**
    What `retry_fn` returns and does, stated declaratively. A budget below one
    returns the sentinel untouched. Otherwise the first round that ends the
    loop decides: a successful call returns 0 with no sleep after it; a failed
    sleep returns `errno`. If no round ends it, the last call's code is
    returned after `attempts` calls, each followed by a sleep.
   */
  function Expected(attempts: int32, unit: u32, f: seq<int32>, sl: seq<SleepOutcome>): (r: Run<int32>)
    requires attempts <= |f| && attempts <= |sl|
    ensures attempts < 1 ==> r.outcome == ERR_NO_ATTEMPTS && r.trace == []
    ensures 1 <= attempts ==>
              (exists k :: 0 <= k < attempts && r.outcome == f[k]) ||
              (exists k :: 0 <= k < attempts && sl[k].SleepFailed? && r.outcome == sl[k].errno)
  {
    if attempts < 1 then
      Run(ERR_NO_ATTEMPTS, [])
    else
      var k := FirstWhere(attempts, StopsAt(f, sl));
      if k == attempts then
        Run(f[attempts - 1], FailedRounds(attempts, CUnsignedWrap, unit))
      else if Succeeded(f[k]) then
        Run(0, FailedRounds(k, CUnsignedWrap, unit) + [Call])
      else
        assert StopsAt(f, sl)(k);
        var errno: int32 := sl[k].errno;
        Run(errno, FailedRounds(k + 1, CUnsignedWrap, unit))
  }

  /**
    `retry_fn`, statement by statement: the guard on the budget, then
    `for (i = 0; i < attempts; i++)` calling `f`, returning on 0, sleeping for
    `power * time_unit` in unsigned arithmetic, returning `errno` if `usleep`
    fails, and shifting `power`.
   */
  method RetryFn(attempts: int32, unit: u32, f: seq<int32>, sl: seq<SleepOutcome>)
    returns (rc: int32, trace: Trace)
    requires attempts <= |f| && attempts <= |sl|
    ensures Run(rc, trace) == Expected(attempts, unit, f, sl)
  {
    rc := 0;
    var power: u32 := 1;
    trace := [];
    if attempts < 1 {
      return ERR_NO_ATTEMPTS, [];
    }
    for i := 0 to attempts
      invariant power == Power(i)
      invariant forall j :: 0 <= j < i ==> !StopsAt(f, sl)(j)
      invariant 0 < i ==> rc == f[i - 1]
      invariant trace == FailedRounds(i, CUnsignedWrap, unit)
    {
      rc := f[i];
      trace := trace + [Call];
      if rc == 0 {
        FirstWhereUnique(attempts, StopsAt(f, sl), i);
        return;
      }
      var request := (power * unit) % TWO_TO_THE_32;
      trace := trace + [Sleep(request)];
      var urc := sl[i];
      if urc.SleepFailed? {
        FirstWhereUnique(attempts, StopsAt(f, sl), i);
        return urc.errno, trace;
      }
      power := Shl1(power);
    }
    FirstWhereUnique(attempts, StopsAt(f, sl), attempts);
  }

  /** Every unit is a whole number of microseconds, each a thousand of the one below. */
  lemma UnitsAreMicroseconds()
    ensures MICROSECOND == 1
    ensures MILLISECOND == 1000 * MICROSECOND
    ensures SECOND == 1000 * MILLISECOND
  {
  }

  /**
    A budget below one, negative ones included, returns `ERR_NO_ATTEMPTS`
    without calling `f` or sleeping; the sentinel reads as a failure under
    the operation contract.
   */
  lemma NoAttemptsSentinel(attempts: int32, unit: u32, f: seq<int32>, sl: seq<SleepOutcome>)
    requires attempts < 1
    ensures Expected(attempts, unit, f, sl).outcome == ERR_NO_ATTEMPTS
    ensures !Succeeded(Expected(attempts, unit, f, sl).outcome)
    ensures CallCount(Expected(attempts, unit, f, sl).trace) == 0
    ensures Sleeps(Expected(attempts, unit, f, sl).trace) == []
  {
  }

  /**
    If call k is the first to return 0 and every earlier sleep succeeded,
    0 is returned after k + 1 calls and k sleeps, nothing after that call.
   */
  lemma FirstZeroReturned(attempts: int32, unit: u32, f: seq<int32>, sl: seq<SleepOutcome>, k: nat)
    requires attempts <= |f| && attempts <= |sl|
    requires k < attempts && f[k] == 0
    requires forall j :: 0 <= j < k ==> f[j] != 0 && sl[j].Slept?
    ensures Expected(attempts, unit, f, sl).outcome == 0
    ensures CallCount(Expected(attempts, unit, f, sl).trace) == k + 1
    ensures |Sleeps(Expected(attempts, unit, f, sl).trace)| == k
    ensures Expected(attempts, unit, f, sl).trace[|Expected(attempts, unit, f, sl).trace| - 1] == Call
  {
    FirstWhereUnique(attempts, StopsAt(f, sl), k);
    SucceededAfter(k, CUnsignedWrap, unit);
    FailedRoundsShape(k, CUnsignedWrap, unit);
  }

  /**
    If every call fails and every sleep succeeds, the LAST call's code is
    returned after `attempts` calls and `attempts` sleeps.
   */
  lemma LastCodeReturned(attempts: int32, unit: u32, f: seq<int32>, sl: seq<SleepOutcome>)
    requires 0 < attempts <= |f| && attempts <= |sl|
    requires forall j :: 0 <= j < attempts ==> f[j] != 0 && sl[j].Slept?
    ensures Expected(attempts, unit, f, sl).outcome == f[attempts - 1]
    ensures !Succeeded(Expected(attempts, unit, f, sl).outcome)
    ensures CallCount(Expected(attempts, unit, f, sl).trace) == attempts
    ensures |Sleeps(Expected(attempts, unit, f, sl).trace)| == attempts
  {
    FirstWhereUnique(attempts, StopsAt(f, sl), attempts as nat);
    FailedRoundsShape(attempts as nat, CUnsignedWrap, unit);
  }

  /**
    If the sleep after failed call k is the first to fail, `errno` is
    returned at once: k + 1 calls, k + 1 sleep requests, and no further call.
   */
  lemma SleepFailureReturnsErrno(attempts: int32, unit: u32, f: seq<int32>, sl: seq<SleepOutcome>, k: nat)
    requires attempts <= |f| && attempts <= |sl|
    requires k < attempts && f[k] != 0 && sl[k].SleepFailed?
    requires forall j :: 0 <= j < k ==> f[j] != 0 && sl[j].Slept?
    ensures Expected(attempts, unit, f, sl).outcome == sl[k].errno
    ensures CallCount(Expected(attempts, unit, f, sl).trace) == k + 1
    ensures |Sleeps(Expected(attempts, unit, f, sl).trace)| == k + 1
  {
    FirstWhereUnique(attempts, StopsAt(f, sl), k);
    FailedRoundsShape(k + 1, CUnsignedWrap, unit);
  }

  /**
    The i-th sleep requests `(power * time_unit) mod 2^32` microseconds with
    `power = 2^i mod 2^32`; the request always fits an unsigned int.
   */
  lemma SleepRequests(attempts: int32, unit: u32, f: seq<int32>, sl: seq<SleepOutcome>)
    requires attempts <= |f| && attempts <= |sl|
    ensures forall i :: 0 <= i < |Sleeps(Expected(attempts, unit, f, sl).trace)| ==>
              Sleeps(Expected(attempts, unit, f, sl).trace)[i] == ((Pow2(i) % TWO_TO_THE_32) * unit) % TWO_TO_THE_32
    ensures forall i :: 0 <= i < |Sleeps(Expected(attempts, unit, f, sl).trace)| ==>
              0 <= Sleeps(Expected(attempts, unit, f, sl).trace)[i] < TWO_TO_THE_32
  {
    var run := Expected(attempts, unit, f, sl);
    if attempts >= 1 {
      var k := FirstWhere(attempts, StopsAt(f, sl));
      var n: nat := if k == attempts || Succeeded(f[k]) then k else k + 1;
      FailedRoundsShape(n, CUnsignedWrap, unit);
      if k < attempts && Succeeded(f[k]) {
        SucceededAfter(k, CUnsignedWrap, unit);
      }
      assert Sleeps(run.trace) == Sleeps(FailedRounds(n, CUnsignedWrap, unit));
      forall i | 0 <= i < |Sleeps(run.trace)|
        ensures Sleeps(run.trace)[i] == ((Pow2(i) % TWO_TO_THE_32) * unit) % TWO_TO_THE_32
      {
        PowerClosedForm(i);
      }
    }
  }

  /** Never more calls than the budget, and none at all for a budget below one. */
  lemma CallBudget(attempts: int32, unit: u32, f: seq<int32>, sl: seq<SleepOutcome>)
    requires attempts <= |f| && attempts <= |sl|
    ensures CallCount(Expected(attempts, unit, f, sl).trace) <= if attempts < 1 then 0 else attempts
    ensures Succeeded(Expected(attempts, unit, f, sl).outcome) ==>
              exists k :: 0 <= k < attempts && Succeeded(f[k])
  {
    if attempts >= 1 {
      var k := FirstWhere(attempts, StopsAt(f, sl));
      var n: nat := if k == attempts || Succeeded(f[k]) then k else k + 1;
      FailedRoundsShape(n, CUnsignedWrap, unit);
      if k < attempts && Succeeded(f[k]) {
        SucceededAfter(k, CUnsignedWrap, unit);
      }
      if k == attempts {
        assert !StopsAt(f, sl)(attempts - 1);
      } else if Succeeded(f[k]) {
        assert 0 <= k < attempts && Succeeded(f[k]);
      }
    }
  }

  /**
    The sentinel is not disjoint from the operation's codes: a budget of 0
    and a one-call run whose call returned -1 both return -1, after 0 and 1
    calls respectively.
   */
  lemma SentinelIsAmbiguous(unit: u32)
    ensures Expected(0, unit, [], []).outcome == Expected(1, unit, [-1], [Slept]).outcome == ERR_NO_ATTEMPTS
    ensures CallCount(Expected(0, unit, [], []).trace) == 0
    ensures CallCount(Expected(1, unit, [-1], [Slept]).trace) == 1
  {
    LastCodeReturned(1, unit, [-1], [Slept]);
  }

  /**
    `power * time_unit` wraps in unsigned arithmetic: with a time unit of one
    second the first 13 sleeps are 2^i seconds, but the 14th requests
    3897032704 microseconds instead of 2^13 seconds.
   */
  lemma SecondUnitWrapsAtFourteenthSleep()
    ensures Delay(CUnsignedWrap, SECOND, 12) == Pow2(12) * SECOND
    ensures Delay(CUnsignedWrap, SECOND, 13) == 3897032704 < Pow2(13) * SECOND
  {
    PowerClosedForm(12);
    PowerClosedForm(13);
    Pow2Add(6, 6);
    assert Pow2(6) == 64;
    assert Pow2(13) == 8192;
  }
}
