/**
 * What one preload pass of `useVideoPool` computes. The pass tries the hero
 * videos 1..N in ascending order; the fetch / blob / object-URL chain of one
 * index is an oracle `attempt` that either yields an object URL or fails.
 * A success stores the URL in the pool under its index and counts one more
 * loaded video; a failure is logged and the pass goes on with the next index.
 */
module Preload {

  /** An object URL, as `URL.createObjectURL` returns it. */
  type ObjectUrl = string

  /** The result of fetching one video and turning its bytes into an object URL. */
  datatype LoadOutcome = Loaded(url: ObjectUrl) | Failed

  /** The pool after indices 1..k have been tried, built as the loop builds
      its local `pool`: only indices already tried are keys (PoolHoldsLoaded
      says exactly which). */
  function PoolAfter(attempt: int -> LoadOutcome, k: nat): (pool: map<int, ObjectUrl>)
    ensures forall i {:trigger i in pool} :: i in pool ==> 1 <= i <= k
  {
    if k == 0 then map[]
    else
      var earlier := PoolAfter(attempt, k - 1);
      match attempt(k)
      case Loaded(url) => earlier[k := url]
      case Failed => earlier
  }

  /** The loaded-video count after indices 1..k have been tried: one per
      success, so never more than the number of tries. */
  function SuccessCount(attempt: int -> LoadOutcome, k: nat): (count: nat)
    ensures count <= k
  {
    if k == 0 then 0
    else SuccessCount(attempt, k - 1) + if attempt(k).Loaded? then 1 else 0
  }

  /** The indices reported as failed after 1..k have been tried, in the
      order they were reported: at most one report per try (FailuresReported
      says exactly which). */
  function FailedIndices(attempt: int -> LoadOutcome, k: nat): (failed: seq<int>)
    ensures |failed| <= k
  {
    if k == 0 then []
    else FailedIndices(attempt, k - 1) + if attempt(k).Failed? then [k] else []
  }

  /** The pool holds exactly the indices among 1..k that loaded, each under
      the URL its own load produced. */
  lemma {:induction false} PoolHoldsLoaded(attempt: int -> LoadOutcome, k: nat)
    ensures forall i :: i in PoolAfter(attempt, k) <==> 1 <= i <= k && attempt(i).Loaded?
    ensures forall i :: i in PoolAfter(attempt, k) ==> PoolAfter(attempt, k)[i] == attempt(i).url
  {
    if k > 0 {
      PoolHoldsLoaded(attempt, k - 1);
    }
  }

  /** The failure reports come in ascending order and name exactly the
      indices among 1..k whose load failed. */
  lemma {:induction false} FailuresReported(attempt: int -> LoadOutcome, k: nat)
    ensures forall j :: 0 <= j < |FailedIndices(attempt, k)| ==>
      1 <= FailedIndices(attempt, k)[j] <= k && attempt(FailedIndices(attempt, k)[j]).Failed?
    ensures forall i :: 1 <= i <= k && attempt(i).Failed? ==> i in FailedIndices(attempt, k)
    ensures forall j, j' :: 0 <= j < j' < |FailedIndices(attempt, k)| ==>
      FailedIndices(attempt, k)[j] < FailedIndices(attempt, k)[j']
  {
    if k > 0 {
      FailuresReported(attempt, k - 1);
    }
  }

  /** The count and the pool agree: one entry per counted success. */
  lemma {:induction false} PoolSizeIsCount(attempt: int -> LoadOutcome, k: nat)
    ensures |PoolAfter(attempt, k)| == SuccessCount(attempt, k)
  {
    if k > 0 {
      PoolSizeIsCount(attempt, k - 1);
      PoolHoldsLoaded(attempt, k - 1);
      var earlier := PoolAfter(attempt, k - 1);
      if attempt(k).Loaded? {
        assert k !in earlier;
        assert PoolAfter(attempt, k).Keys == earlier.Keys + {k};
      }
    }
  }

  /** Every try is either counted as loaded or reported as failed. */
  lemma {:induction false} TriesArePartitioned(attempt: int -> LoadOutcome, k: nat)
    ensures SuccessCount(attempt, k) + |FailedIndices(attempt, k)| == k
  {
    if k > 0 {
      TriesArePartitioned(attempt, k - 1);
    }
  }

  /** The count reaches the number of tries exactly when every try loaded;
      a single failure keeps it short for good. */
  lemma {:induction false} AllLoadedIff(attempt: int -> LoadOutcome, k: nat)
    ensures SuccessCount(attempt, k) == k <==> forall i :: 1 <= i <= k ==> attempt(i).Loaded?
  {
    if k > 0 {
      AllLoadedIff(attempt, k - 1);
      if attempt(k).Failed? {
        assert SuccessCount(attempt, k) <= k - 1;
      }
    }
  }

  /** When only index `f` fails, the pool holds every other index, the
      count is one short of `n`, and `f` is the one index reported. */
  lemma SingleFailure(attempt: int -> LoadOutcome, n: nat, f: int)
    requires 1 <= f <= n && attempt(f).Failed?
    requires forall i :: 1 <= i <= n && i != f ==> attempt(i).Loaded?
    ensures forall i :: i in PoolAfter(attempt, n) <==> 1 <= i <= n && i != f
    ensures SuccessCount(attempt, n) == n - 1
    ensures FailedIndices(attempt, n) == [f]
  {
    OnlyFailureReported(attempt, n, f, n);
    TriesArePartitioned(attempt, n);
    PoolHoldsLoaded(attempt, n);
  }

  /** Helper of SingleFailure: the failure reports among the first `k` tries. */
  lemma {:induction false} OnlyFailureReported(attempt: int -> LoadOutcome, n: nat, f: int, k: nat)
    requires 1 <= f <= n && attempt(f).Failed?
    requires forall i :: 1 <= i <= n && i != f ==> attempt(i).Loaded?
    requires k <= n
    ensures FailedIndices(attempt, k) == if f <= k then [f] else []
  {
    if k > 0 {
      OnlyFailureReported(attempt, n, f, k - 1);
    }
  }
}
