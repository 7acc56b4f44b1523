/**
 * Sampling without replacement, as `random.sample(population, k)` does it
 * for a small k and a population of at most 21 (the pool method): copy the population into a pool, and k times draw a
 * position `j` below the size of the part of the pool still in play, take
 * `pool[j]`, and move the last element in play into its place.
 *
 * The random source is a parameter: `rnd(t) % m` stands for the t-th
 * value below `m` that the generator hands out.
 */
module Sampling {

  /** No value occurs twice in `s`. */
  predicate NoDuplicates<T(==)>(s: seq<T>) {
    forall i, j :: 0 <= i < j < |s| ==> s[i] != s[j]
  }

  /** A sequence without duplicates has as many distinct values as elements. */
  lemma {:induction false} DistinctCount<T>(s: seq<T>)
    requires NoDuplicates(s)
    ensures |set x | x in s| == |s|
    decreases |s|
  {
    if s != [] {
      var init, last := s[..|s| - 1], s[|s| - 1];
      assert NoDuplicates(init);
      DistinctCount(init);
      assert last !in init by {
        forall i | 0 <= i < |init| ensures init[i] != last {
          assert init[i] == s[i];
        }
      }
      assert (set x | x in s) == (set x | x in init) + {last};
    }
  }

  /** The pool after taking position `j`: the last element fills the gap. */
  function Without<T>(pool: seq<T>, j: nat): (rest: seq<T>)
    requires j < |pool|
    ensures |rest| == |pool| - 1
  {
    pool[j := pool[|pool| - 1]][..|pool| - 1]
  }

  /**
   * `k` values drawn from `pool` without replacement, consuming the draws
   * `rnd(t)`, ..., `rnd(t + k - 1)`.
   */
  function Sample<T>(pool: seq<T>, k: nat, rnd: nat -> nat, t: nat): (s: seq<T>)
    requires k <= |pool|
    ensures |s| == k
    decreases k
  {
    if k == 0 then []
    else
      var j := rnd(t) % |pool|;
      [pool[j]] + Sample(Without(pool, j), k - 1, rnd, t + 1)
  }

  /** What is left in the pool came from the pool, and the taken value is gone. */
  lemma WithoutProps<T>(pool: seq<T>, j: nat)
    requires j < |pool|
    ensures forall i :: 0 <= i < |Without(pool, j)| ==> Without(pool, j)[i] in pool
    ensures NoDuplicates(pool) ==> NoDuplicates(Without(pool, j))
    ensures NoDuplicates(pool) ==> pool[j] !in Without(pool, j)
  {
    var rest := Without(pool, j);
    var last := |pool| - 1;
    // the gap at j holds the pool's last element; every other position is unchanged
    assert forall i :: 0 <= i < |rest| ==> rest[i] == pool[if i == j then last else i];
    if NoDuplicates(pool) {
      forall a, b | 0 <= a < b < |rest| ensures rest[a] != rest[b] {
        var sa := if a == j then last else a;
        var sb := if b == j then last else b;
        assert sa != sb;
        assert rest[a] == pool[sa] && rest[b] == pool[sb];
      }
      forall i | 0 <= i < |rest| ensures rest[i] != pool[j] {
        var si := if i == j then last else i;
        assert si != j;
        assert rest[i] == pool[si];
      }
    }
  }

  /** Every sampled value is a member of the population. */
  lemma {:induction false} SampleFromPool<T>(pool: seq<T>, k: nat, rnd: nat -> nat, t: nat)
    requires k <= |pool|
    ensures forall i :: 0 <= i < k ==> Sample(pool, k, rnd, t)[i] in pool
    decreases k
  {
    if k > 0 {
      var j := rnd(t) % |pool|;
      WithoutProps(pool, j);
      SampleFromPool(Without(pool, j), k - 1, rnd, t + 1);
      var s := Sample(pool, k, rnd, t);
      var tail := Sample(Without(pool, j), k - 1, rnd, t + 1);
      assert s == [pool[j]] + tail;
      forall i | 0 <= i < k ensures s[i] in pool {
        if i > 0 {
          assert s[i] == tail[i - 1];
          assert tail[i - 1] in Without(pool, j);
        }
      }
    }
  }

  /** A population without repeated values gives a sample without repeated values. */
  lemma {:induction false} SampleDistinct<T>(pool: seq<T>, k: nat, rnd: nat -> nat, t: nat)
    requires k <= |pool|
    requires NoDuplicates(pool)
    ensures NoDuplicates(Sample(pool, k, rnd, t))
    decreases k
  {
    if k > 0 {
      var j := rnd(t) % |pool|;
      var rest := Without(pool, j);
      WithoutProps(pool, j);
      SampleDistinct(rest, k - 1, rnd, t + 1);
      SampleFromPool(rest, k - 1, rnd, t + 1);
      var s := Sample(pool, k, rnd, t);
      var tail := Sample(rest, k - 1, rnd, t + 1);
      assert s == [pool[j]] + tail;
      forall a, b | 0 <= a < b < k ensures s[a] != s[b] {
        assert s[b] == tail[b - 1];
        if a == 0 {
          assert tail[b - 1] in rest;
        } else {
          assert s[a] == tail[a - 1];
        }
      }
    }
  }
}
