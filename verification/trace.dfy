/**
  What a retry call does, as a trace of events: each call of the operation
  and each sleep, with the duration that was requested.
 */
module Trace {
  import opened Backoff

  datatype Event = Call | Sleep(duration: int)

  type Trace = seq<Event>

  /** What one retry call returns, together with what it did. */
  datatype Run<R> = Run(outcome: R, trace: Trace)

  /** The number of calls in a trace. */
  function CallCount(t: Trace): (n: nat)
  {
    if t == [] then 0 else CallCount(t[..|t| - 1]) + (if t[|t| - 1] == Call then 1 else 0)
  }

  /** The requested sleep durations, in order. */
  function Sleeps(t: Trace): (s: seq<int>)
  {
    if t == [] then [] else Sleeps(t[..|t| - 1]) + (if t[|t| - 1].Sleep? then [t[|t| - 1].duration] else [])
  }

  /**
    The trace of the first k calls when each of them failed: every call is
    followed by its sleep, the i-th sleep lasting `Delay(policy, unit, i)`.
   */
  function FailedRounds(k: nat, policy: Policy, unit: int): (t: Trace)
  {
    if k == 0 then [] else FailedRounds(k - 1, policy, unit) + [Call, Sleep(Delay(policy, unit, k - 1))]
  }

  lemma {:induction false} CountsDistribute(a: Trace, b: Trace)
    ensures CallCount(a + b) == CallCount(a) + CallCount(b)
    ensures Sleeps(a + b) == Sleeps(a) + Sleeps(b)
    decreases |b|
  {
    if b != [] {
      var b' := b[..|b| - 1];
      assert (a + b)[..|a + b| - 1] == a + b';
      CountsDistribute(a, b');
    } else {
      assert a + b == a;
    }
  }

  /** Calls and sleeps alternate, one sleep after every failed call. */
  lemma {:induction false} FailedRoundsShape(k: nat, policy: Policy, unit: int)
    ensures |FailedRounds(k, policy, unit)| == 2 * k
    ensures CallCount(FailedRounds(k, policy, unit)) == k
    ensures |Sleeps(FailedRounds(k, policy, unit))| == k
    ensures forall i :: 0 <= i < k ==> Sleeps(FailedRounds(k, policy, unit))[i] == Delay(policy, unit, i)
    ensures forall j :: 0 <= j < 2 * k ==>
              FailedRounds(k, policy, unit)[j] == if j % 2 == 0 then Call else Sleep(Delay(policy, unit, j / 2))
  {
    if k > 0 {
      var prev := FailedRounds(k - 1, policy, unit);
      var last := [Call, Sleep(Delay(policy, unit, k - 1))];
      FailedRoundsShape(k - 1, policy, unit);
      CountsDistribute(prev, last);
      assert last[..1] == [Call];
      assert [Call][..0] == [];
      assert CallCount(last) == 1;
      assert Sleeps(last) == [Delay(policy, unit, k - 1)];
    }
  }

  /** k failed rounds hold k calls. */
  lemma FailedRoundsCalls(k: nat, policy: Policy, unit: int)
    ensures CallCount(FailedRounds(k, policy, unit)) == k
  {
    FailedRoundsShape(k, policy, unit);
  }

  /** A run whose k-th call succeeded: k failed rounds, then one last call and no sleep. */
  lemma SucceededAfter(k: nat, policy: Policy, unit: int)
    ensures CallCount(FailedRounds(k, policy, unit) + [Call]) == k + 1
    ensures Sleeps(FailedRounds(k, policy, unit) + [Call]) == Sleeps(FailedRounds(k, policy, unit))
  {
    CountsDistribute(FailedRounds(k, policy, unit), [Call]);
    FailedRoundsShape(k, policy, unit);
    assert [Call][..0] == [];
  }
}
