/**
 * `_.sampleSize(pool, k)` (app.js lines 55 and 74), as far as the game relies on it.
 * The sampler is random, so the model takes its outcome as an input: the POSITIONS
 * of `pool` it drew, in the order drawn. A well-behaved sampler draws `min(k, |pool|)`
 * distinct positions; `ValidPicks` says so and the lemmas below use it.
 */
module Sampling {

  function Min(a: nat, b: nat): nat { if a <= b then a else b }

  predicate Distinct<T(==)>(s: seq<T>) {
    forall i, j | 0 <= i < j < |s| :: s[i] != s[j]
  }

  /** Every drawn position lies inside a pool of `n` elements. */
  predicate InRange(picks: seq<nat>, n: nat) {
    forall i | 0 <= i < |picks| :: picks[i] < n
  }

  /** What `_.sampleSize` promises of the positions it draws from a pool of `n`, asked for `k`. */
  ghost predicate ValidPicks(picks: seq<nat>, n: nat, k: nat) {
    |picks| == Min(k, n) && InRange(picks, n) && Distinct(picks)
  }

  /** The sample: the pool's elements at the drawn positions, in the order drawn. */
  function SampleSize<T>(pool: seq<T>, picks: seq<nat>): (s: seq<T>)
    requires InRange(picks, |pool|)
    ensures |s| == |picks|
    ensures forall i | 0 <= i < |s| :: s[i] == pool[picks[i]]
  {
    if picks == [] then [] else [pool[picks[0]]] + SampleSize(pool, picks[1..])
  }

  /** A sample is drawn from its pool, has the requested size when the pool is large enough,
      and repeats nothing the pool does not repeat. */
  lemma SampleOfPool<T>(pool: seq<T>, picks: seq<nat>, k: nat)
    requires ValidPicks(picks, |pool|, k)
    ensures |SampleSize(pool, picks)| == Min(k, |pool|)
    ensures k <= |pool| ==> |SampleSize(pool, picks)| == k
    ensures forall x | x in SampleSize(pool, picks) :: x in pool
    ensures Distinct(pool) ==> Distinct(SampleSize(pool, picks))
  {
    var s := SampleSize(pool, picks);
    forall x | x in s ensures x in pool {
      var i :| 0 <= i < |s| && s[i] == x;
      assert pool[picks[i]] == x;
    }
    if Distinct(pool) {
      forall i, j | 0 <= i < j < |s| ensures s[i] != s[j] {
        assert picks[i] != picks[j];
      }
    }
  }
}
