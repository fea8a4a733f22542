/**
  The first index below a bound at which a per-call condition holds. Every
  retry loop stops at the first call (or sleep) that ends it; this is that
  call's index, or the bound itself when no call ends the loop early.
 */
module Search {

  function FirstWhere(n: nat, p: nat -> bool): (k: nat)
    ensures k <= n
    ensures k < n ==> p(k)
    ensures forall j :: 0 <= j < k ==> !p(j)
  {
    FirstFrom(0, n, p)
  }

  function FirstFrom(i: nat, n: nat, p: nat -> bool): (k: nat)
    requires i <= n
    ensures i <= k <= n
    ensures k < n ==> p(k)
    ensures forall j :: i <= j < k ==> !p(j)
    decreases n - i
  {
    if i == n || p(i) then i else FirstFrom(i + 1, n, p)
  }

  /** The three properties of `FirstWhere` pin it down. */
  lemma FirstWhereUnique(n: nat, p: nat -> bool, k: nat)
    requires k <= n
    requires k < n ==> p(k)
    requires forall j :: 0 <= j < k ==> !p(j)
    ensures FirstWhere(n, p) == k
  {
  }

  /** Conditions that agree below the bound stop at the same index. */
  lemma FirstWhereAgrees(n: nat, p: nat -> bool, q: nat -> bool)
    requires forall j :: 0 <= j < n ==> p(j) == q(j)
    ensures FirstWhere(n, p) == FirstWhere(n, q)
  {
    FirstWhereUnique(n, q, FirstWhere(n, p));
  }
}
