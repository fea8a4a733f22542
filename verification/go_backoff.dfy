/**
  The Go executor `ExponentialBackOff`.

  The operation `f` is an oracle: the sequence of errors its successive
  calls return, `None` standing for nil. Sleeping is an event in the trace
  with the requested Duration. The error built by `fmt.Errorf` is kept as a
  structured value: the retry count it prints and the error it wraps.
 */
module GoBackoff {
  import opened Backoff
  import opened Search
  import opened Trace

  /** A Go error value: nil, or some error. */
  datatype Option<T> = None | Some(value: T)

  /** "Retry failed after %d attempts: %w", with the %w operand kept for unwrapping. */
  datatype Wrapped<E> = Wrapped(retries: int, cause: E)

  /** Whether call i of the oracle returns nil. */
  function NilAt<E>(f: seq<Option<E>>): (p: nat -> bool)
  {
    (i: nat) => i < |f| && f[i].None?
  }

  /**
    What `ExponentialBackOff` returns and does, stated declaratively: no
    call and nil for a non-positive count; otherwise nil at the first call
    that returns nil, or the last error wrapped once every call has failed.
   */
  function Expected<E>(retries: int, d: int, f: seq<Option<E>>): (r: Run<Option<Wrapped<E>>>)
    requires retries <= |f|
    ensures retries <= 0 ==> r.outcome == None && r.trace == []
    ensures 0 < retries && r.outcome == None ==> exists k :: 0 <= k < retries && f[k] == None
    ensures r.outcome.Some? ==>
              0 < retries && r.outcome.value.retries == retries && f[retries - 1] == Some(r.outcome.value.cause)
  {
    if retries <= 0 then
      Run(None, [])
    else
      var k := FirstWhere(retries, NilAt(f));
      if k < retries then
        Run(None, FailedRounds(k, GoPow, d) + [Call])
      else
        assert !NilAt(f)(retries - 1);
        Run(Some(Wrapped(retries, f[retries - 1].value)), FailedRounds(retries, GoPow, d))
  }

  /**
    `ExponentialBackOff`, statement by statement: the counted loop, the early
    nil return, the sleep after each failure, and the two returns after the
    loop.
   */
  method ExponentialBackOff<E>(retries: int, d: int, f: seq<Option<E>>)
    returns (r: Option<Wrapped<E>>, trace: Trace)
    requires retries <= |f|
    ensures Run(r, trace) == Expected(retries, d, f)
  {
    var err: Option<E> := None;
    trace := [];
    var i := 0;
    while i < retries
      invariant 0 <= i && (i == 0 || i <= retries)
      invariant forall j :: 0 <= j < i ==> !NilAt(f)(j)
      invariant i == 0 ==> err == None
      invariant 0 < i ==> err == f[i - 1] && err.Some?
      invariant trace == FailedRounds(i, GoPow, d)
    {
      err := f[i];
      trace := trace + [Call];
      if err == None {
        FirstWhereUnique(retries, NilAt(f), i);
        return None, trace;
      }
      trace := trace + [Sleep(Pow2(i) * d)];
      i := i + 1;
    }
    if err != None {
      FirstWhereUnique(retries, NilAt(f), retries);
      return Some(Wrapped(retries, err.value)), trace;
    }
    // The trailing `return nil` is reached only when the loop never ran.
    assert retries <= 0;
    return None, trace;
  }

  /** A count of zero or below: nil, meaning success, without any call or sleep. */
  lemma NonPositiveIsSuccess<E>(retries: int, d: int, f: seq<Option<E>>)
    requires retries <= 0
    ensures Expected(retries, d, f).outcome == None
    ensures CallCount(Expected(retries, d, f).trace) == 0
    ensures Sleeps(Expected(retries, d, f).trace) == []
  {
  }

  /** If call k is the first to return nil, nil is returned after k + 1 calls and k sleeps. */
  lemma FirstNilReturned<E>(retries: int, d: int, f: seq<Option<E>>, k: nat)
    requires retries <= |f|
    requires k < retries && f[k].None?
    requires forall j :: 0 <= j < k ==> f[j].Some?
    ensures Expected(retries, d, f).outcome == None
    ensures CallCount(Expected(retries, d, f).trace) == k + 1
    ensures |Sleeps(Expected(retries, d, f).trace)| == k
    ensures Expected(retries, d, f).trace[|Expected(retries, d, f).trace| - 1] == Call
  {
    FirstWhereUnique(retries, NilAt(f), k);
    SucceededAfter(k, GoPow, d);
    FailedRoundsShape(k, GoPow, d);
  }

  /**
    If every call fails, the returned error records the count and wraps the
    LAST error, after `retries` calls and `retries` sleeps.
   */
  lemma LastErrorWrapped<E>(retries: int, d: int, f: seq<Option<E>>)
    requires 0 < retries <= |f|
    requires forall j :: 0 <= j < retries ==> f[j].Some?
    ensures Expected(retries, d, f).outcome == Some(Wrapped(retries, f[retries - 1].value))
    ensures CallCount(Expected(retries, d, f).trace) == retries
    ensures |Sleeps(Expected(retries, d, f).trace)| == retries
    ensures Expected(retries, d, f).trace[|Expected(retries, d, f).trace| - 1].Sleep?
  {
    FirstWhereUnique(retries, NilAt(f), retries);
    FailedRoundsShape(retries, GoPow, d);
  }

  /** The i-th sleep lasts 2^i * d, after every failure including the last. */
  lemma SleepSchedule<E>(retries: int, d: int, f: seq<Option<E>>)
    requires retries <= |f|
    ensures forall i :: 0 <= i < |Sleeps(Expected(retries, d, f).trace)| ==>
              Sleeps(Expected(retries, d, f).trace)[i] == Pow2(i) * d
  {
    var run := Expected(retries, d, f);
    if retries > 0 {
      var k := FirstWhere(retries, NilAt(f));
      var n: nat := if k < retries then k else retries;
      FailedRoundsShape(n, GoPow, d);
      if k < retries {
        SucceededAfter(k, GoPow, d);
      }
      assert Sleeps(run.trace) == Sleeps(FailedRounds(n, GoPow, d));
    }
  }

  /**
    At most `retries` calls; nil comes back exactly when the count is not
    positive or some call within it returned nil; and nil without any call
    happens exactly when the count is not positive.
   */
  lemma CallBudget<E>(retries: int, d: int, f: seq<Option<E>>)
    requires retries <= |f|
    ensures CallCount(Expected(retries, d, f).trace) <= if retries <= 0 then 0 else retries
    ensures Expected(retries, d, f).outcome == None <==>
              retries <= 0 || exists k :: 0 <= k < retries && f[k].None?
    ensures (Expected(retries, d, f).outcome == None && CallCount(Expected(retries, d, f).trace) == 0) <==>
              retries <= 0
  {
    if retries > 0 {
      var k := FirstWhere(retries, NilAt(f));
      forall j | 0 <= j < k
        ensures f[j].Some?
      {
        assert !NilAt(f)(j);
      }
      if k < retries {
        FirstNilReturned(retries, d, f, k);
      } else {
        LastErrorWrapped(retries, d, f);
      }
    }
  }
}
