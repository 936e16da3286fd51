/**
 * The shape shared by the three geolocation retry loops: replies are asked
 * for one attempt at a time, and the loop stops at the first reply that
 * settles the outcome, or when the attempts run out.
 */
module Retry {

  /** The retry bound `MAX_RETRY_ATTEMPTS` (and the literal 3 of the Java loops). */
  const MaxRetryAttempts: nat := 3

  /** `while (attempts <= 3) { attempts++; ... }` runs its body at most this many times. */
  const MaxRequests: nat := MaxRetryAttempts + 1

  /** The first attempt index in [from, limit) at which `settles` holds, or `limit` when there is none. */
  function FirstHit(settles: nat -> bool, from: nat, limit: nat): (k: nat)
    requires from <= limit
    ensures from <= k <= limit
    ensures k < limit ==> settles(k)
    ensures forall i :: from <= i < k ==> !settles(i)
    decreases limit - from
  {
    if from == limit then limit
    else if settles(from) then from
    else FirstHit(settles, from + 1, limit)
  }

  /** The first hit is the index before which nothing settles and at which something does (or the limit). */
  lemma FirstHitIs(settles: nat -> bool, limit: nat, k: nat)
    requires k <= limit
    requires forall i :: 0 <= i < k ==> !settles(i)
    requires k < limit ==> settles(k)
    ensures FirstHit(settles, 0, limit) == k
  {
  }

  /** Two oracles that agree on the attempts up to the first hit have the same first hit. */
  lemma {:induction false} FirstHitDependsOnPrefix(s1: nat -> bool, s2: nat -> bool, from: nat, limit: nat)
    requires from <= limit
    requires forall i :: from <= i <= FirstHit(s1, from, limit) && i < limit ==> s1(i) == s2(i)
    ensures FirstHit(s1, from, limit) == FirstHit(s2, from, limit)
    decreases limit - from
  {
    if from < limit && !s1(from) {
      FirstHitDependsOnPrefix(s1, s2, from + 1, limit);
    }
  }
}
