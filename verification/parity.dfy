/**
  How the three executors compare when they are given the same operation:
  they make the same calls and sleep equally often, but they part ways on an
  empty budget and on the sleep durations after the 32nd failure.
 */
module Parity {
  import opened Backoff
  import opened Search
  import opened Trace
  import RustRetry
  import CRetry
  import GoBackoff

  /**
    An empty budget: Rust reports `NoAttempts`, C returns -1 (a failure code
    under its own contract), Go returns nil, which its callers read as
    success. None of them calls the operation.
   */
  lemma EmptyBudgetDisagrees<T, E>(unit: u32, f: seq<RustRetry.Result<T, E>>, c: seq<CRetry.int32>,
                                   sl: seq<CRetry.SleepOutcome>, g: seq<GoBackoff.Option<E>>)
    ensures RustRetry.Expected(0, unit, f).outcome == RustRetry.Err(RustRetry.NoAttempts)
    ensures CRetry.Expected(0, unit, c, sl).outcome == CRetry.ERR_NO_ATTEMPTS
    ensures !CRetry.Succeeded(CRetry.Expected(0, unit, c, sl).outcome)
    ensures GoBackoff.Expected(0, unit, g).outcome == GoBackoff.None
    ensures CallCount(RustRetry.Expected(0, unit, f).trace) == 0
    ensures CallCount(CRetry.Expected(0, unit, c, sl).trace) == 0
    ensures CallCount(GoBackoff.Expected(0, unit, g).trace) == 0
  {
    CRetry.NoAttemptsSentinel(0, unit, c, sl);
  }

  /** 2^63: Go's `time.Duration` is an int64, so its values stay below this. */
  const INT64_LIMIT: nat := 0x8000_0000_0000_0000

  /** The three oracles succeed and fail on the same calls, and no C sleep fails. */
  predicate SameOperation<T, E>(n: nat, f: seq<RustRetry.Result<T, E>>, c: seq<CRetry.int32>,
                                sl: seq<CRetry.SleepOutcome>, g: seq<GoBackoff.Option<E>>)
  {
    && n <= |f| && n <= |c| && n <= |sl| && n <= |g|
    && (forall i :: 0 <= i < n ==> (f[i].Ok? <==> c[i] == 0) && (f[i].Ok? <==> g[i].None?))
    && (forall i :: 0 <= i < n ==> sl[i].Slept?)
  }

  /**
    On the same operation and a positive budget, the three executors make
    the same number of calls and sleeps and agree on success.
   */
  lemma SameCallsAndSleeps<T, E>(n: RustRetry.u8, unit: u32, f: seq<RustRetry.Result<T, E>>,
                                 c: seq<CRetry.int32>, sl: seq<CRetry.SleepOutcome>, g: seq<GoBackoff.Option<E>>)
    requires 0 < n
    requires SameOperation(n, f, c, sl, g)
    ensures CallCount(RustRetry.Expected(n, unit, f).trace) == CallCount(CRetry.Expected(n, unit, c, sl).trace)
                                                          == CallCount(GoBackoff.Expected(n, unit, g).trace)
    ensures |Sleeps(RustRetry.Expected(n, unit, f).trace)| == |Sleeps(CRetry.Expected(n, unit, c, sl).trace)|
                                                         == |Sleeps(GoBackoff.Expected(n, unit, g).trace)|
    ensures RustRetry.Expected(n, unit, f).outcome.Ok? <==> CRetry.Expected(n, unit, c, sl).outcome == 0
    ensures RustRetry.Expected(n, unit, f).outcome.Ok? <==> GoBackoff.Expected(n, unit, g).outcome.None?
  {
    var k := FirstWhere(n, RustRetry.OkAt(f));
    FirstWhereAgrees(n, RustRetry.OkAt(f), CRetry.StopsAt(c, sl));
    FirstWhereAgrees(n, RustRetry.OkAt(f), GoBackoff.NilAt(g));
    forall j | 0 <= j < k
      ensures f[j].Err? && c[j] != 0 && sl[j].Slept? && g[j].Some?
    {
      assert !RustRetry.OkAt(f)(j);
    }
    if k < n {
      RustRetry.FirstSuccessWins(n, unit, f, k);
      CRetry.FirstZeroReturned(n, unit, c, sl, k);
      GoBackoff.FirstNilReturned(n, unit, g, k);
    } else {
      RustRetry.LastErrorReported(n, unit, f);
      CRetry.LastCodeReturned(n, unit, c, sl);
      GoBackoff.LastErrorWrapped(n, unit, g);
    }
  }

  /**
    With the same time unit, the Rust and Go sleeps are equally long for the
    first 32; the Rust ones are 0 after that, while a Go sleep stays positive
    as long as 2^i * unit still fits Go's int64 Duration.
   */
  lemma SameEarlyDelays<T, E>(n: RustRetry.u8, unit: u32, f: seq<RustRetry.Result<T, E>>,
                              c: seq<CRetry.int32>, sl: seq<CRetry.SleepOutcome>, g: seq<GoBackoff.Option<E>>)
    requires 0 < n
    requires SameOperation(n, f, c, sl, g)
    ensures |Sleeps(RustRetry.Expected(n, unit, f).trace)| == |Sleeps(GoBackoff.Expected(n, unit, g).trace)|
    ensures forall i :: 0 <= i < |Sleeps(RustRetry.Expected(n, unit, f).trace)| && i < 32 ==>
              Sleeps(RustRetry.Expected(n, unit, f).trace)[i] == Sleeps(GoBackoff.Expected(n, unit, g).trace)[i]
    ensures forall i :: 32 <= i < |Sleeps(RustRetry.Expected(n, unit, f).trace)| ==>
              Sleeps(RustRetry.Expected(n, unit, f).trace)[i] == 0 &&
              (0 < unit && Pow2(i) * unit < INT64_LIMIT ==> 0 < Sleeps(GoBackoff.Expected(n, unit, g).trace)[i])
  {
    var rust := Sleeps(RustRetry.Expected(n, unit, f).trace);
    var go := Sleeps(GoBackoff.Expected(n, unit, g).trace);
    SameCallsAndSleeps(n, unit, f, c, sl, g);
    RustRetry.SleepSchedule(n, unit, f);
    GoBackoff.SleepSchedule(n, unit, g);
    forall i | 0 <= i < |rust|
      ensures i < 32 ==> rust[i] == go[i]
      ensures 32 <= i ==> rust[i] == 0 && (0 < unit && Pow2(i) * unit < INT64_LIMIT ==> 0 < go[i])
    {
      MultiplierComparison(unit, i);
    }
  }

  /** `unit * (2^i mod 2^32)` against `2^i * unit`, below and from the 33rd sleep. */
  lemma MultiplierComparison(unit: nat, i: nat)
    ensures i < 32 ==> unit * (Pow2(i) % TWO_TO_THE_32) == Pow2(i) * unit
    ensures 32 <= i ==> unit * (Pow2(i) % TWO_TO_THE_32) == 0
    ensures 0 < unit ==> 0 < Pow2(i) * unit
  {
    Pow2Bounds(i);
    if 0 < unit {
      PositiveProduct(Pow2(i), unit);
    }
  }

  lemma PositiveProduct(a: nat, b: nat)
    requires 0 < a && 0 < b
    ensures 0 < a * b
  {
  }
}
