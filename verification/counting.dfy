/**
 * Counting primitives behind every statistic of the analytics engine:
 * `collections.Counter` increments, histograms of ballot sizes, sums over
 * histogram buckets, and `Counter.most_common(1)`.
 */
module Counting {
  import opened Wrappers

  /** `counter[k]`: zero for a key never counted. */
  function Get<K>(m: map<K, nat>, k: K): nat {
    if k in m then m[k] else 0
  }

  /** `counter[k] += 1`. */
  function Bump<K(!new)>(m: map<K, nat>, k: K): (r: map<K, nat>)
    ensures r.Keys == m.Keys + {k}
    ensures Get(r, k) == Get(m, k) + 1
    ensures forall j :: j != k ==> Get(r, j) == Get(m, j)
  {
    m[k := Get(m, k) + 1]
  }

  /** Sum of a list of counts. */
  function Sum(xs: seq<nat>): nat {
    if xs == [] then 0 else Sum(xs[..|xs| - 1]) + xs[|xs| - 1]
  }

  // ---------------------------------------------------------------------------
  // Histograms
  // ---------------------------------------------------------------------------

  /**
   * A `Counter` filled with one increment per listed size, in list order: the
   * approval distribution "number of approvals on a ballot -> number of ballots".
   */
  function Histogram(sizes: seq<nat>): map<nat, nat> {
    if sizes == [] then map[]
    else Bump(Histogram(sizes[..|sizes| - 1]), sizes[|sizes| - 1])
  }

  /** Each bucket of the histogram holds the number of times its size was listed. */
  lemma {:induction false} HistogramCounts(sizes: seq<nat>)
    ensures forall k :: Get(Histogram(sizes), k) == multiset(sizes)[k]
    ensures forall k :: k in Histogram(sizes) <==> k in sizes
    decreases |sizes|
  {
    if sizes != [] {
      var init := sizes[..|sizes| - 1];
      HistogramCounts(init);
      assert sizes == init + [sizes[|sizes| - 1]];
    }
  }

  /** `sum(h[k] for k in 0..n)`. */
  function BucketSum(h: map<nat, nat>, n: nat): nat {
    Get(h, n) + (if n == 0 then 0 else BucketSum(h, n - 1))
  }

  /** `sum(k * h[k] for k in 0..n)`. */
  function WeightedBucketSum(h: map<nat, nat>, n: nat): nat {
    n * Get(h, n) + (if n == 0 then 0 else WeightedBucketSum(h, n - 1))
  }

  lemma {:induction false} BucketSumBump(h: map<nat, nat>, x: nat, n: nat)
    ensures BucketSum(Bump(h, x), n) == BucketSum(h, n) + (if x <= n then 1 else 0)
    decreases n
  {
    if n > 0 { BucketSumBump(h, x, n - 1); }
  }

  lemma {:induction false} WeightedBucketSumBump(h: map<nat, nat>, x: nat, n: nat)
    ensures WeightedBucketSum(Bump(h, x), n) == WeightedBucketSum(h, n) + (if x <= n then x else 0)
    decreases n
  {
    var g := Get(h, n);
    if n == x {
      assert n * (g + 1) == n * g + n;
    } else {
      assert Get(Bump(h, x), n) == g;
    }
    if n > 0 { WeightedBucketSumBump(h, x, n - 1); }
  }

  /**
   * When every size is at most `n`, the buckets 0..n of the histogram hold
   * one entry per listed size, and weighting each bucket by its size gives
   * back the sum of the sizes.
   */
  lemma {:induction false} HistogramMass(sizes: seq<nat>, n: nat)
    requires forall i :: 0 <= i < |sizes| ==> sizes[i] <= n
    ensures BucketSum(Histogram(sizes), n) == |sizes|
    ensures WeightedBucketSum(Histogram(sizes), n) == Sum(sizes)
    decreases |sizes|
  {
    if sizes == [] {
      EmptyBuckets(n);
    } else {
      var init := sizes[..|sizes| - 1];
      HistogramMass(init, n);
      BucketSumBump(Histogram(init), sizes[|sizes| - 1], n);
      WeightedBucketSumBump(Histogram(init), sizes[|sizes| - 1], n);
    }
  }

  lemma {:induction false} EmptyBuckets(n: nat)
    ensures BucketSum(map[], n) == 0 && WeightedBucketSum(map[], n) == 0
    decreases n
  {
    if n > 0 { EmptyBuckets(n - 1); }
  }

  /** A single bucket never exceeds the sum of the buckets up to and including it. */
  lemma {:induction false} BucketBelowSum(h: map<nat, nat>, k: nat, n: nat)
    requires k <= n
    ensures Get(h, k) <= BucketSum(h, n)
    decreases n
  {
    if k < n { BucketBelowSum(h, k, n - 1); }
  }

  /** A histogram has no bucket above the largest listed size. */
  lemma HistogramKeysBounded(sizes: seq<nat>, n: nat)
    requires forall i :: 0 <= i < |sizes| ==> sizes[i] <= n
    ensures forall k :: k in Histogram(sizes) ==> k <= n
  {
    HistogramCounts(sizes);
  }

  lemma {:induction false} SumBound(xs: seq<nat>, n: nat)
    requires forall i :: 0 <= i < |xs| ==> xs[i] <= n
    ensures Sum(xs) <= n * |xs|
    decreases |xs|
  {
    if xs != [] {
      SumBound(xs[..|xs| - 1], n);
    }
  }

  /** The mean of values in `[0, n]` lies in `[0, n]`. */
  lemma MeanBound(xs: seq<nat>, n: nat)
    requires xs != [] && forall i :: 0 <= i < |xs| ==> xs[i] <= n
    ensures 0.0 <= Sum(xs) as real / |xs| as real <= n as real
  {
    var total, m := Sum(xs), |xs|;
    SumBound(xs, n);
    RealProduct(n, m);
    QuotientBound(total as real, m as real, n as real);
  }

  lemma RealProduct(a: nat, b: nat)
    ensures (a * b) as real == a as real * b as real
  {
  }

  lemma QuotientBound(a: real, b: real, c: real)
    requires 0.0 <= a && 0.0 < b && a <= c * b
    ensures 0.0 <= a / b <= c
  {
    assert a / b * b == a;
  }

  // ---------------------------------------------------------------------------
  // Sums over keyed tallies
  // ---------------------------------------------------------------------------

  /** `sum(m[k] for k in ks)` for a listing `ks` of keys. */
  function SumOver<K>(m: map<K, nat>, ks: seq<K>): nat {
    if ks == [] then 0 else SumOver(m, ks[..|ks| - 1]) + Get(m, ks[|ks| - 1])
  }

  /** Each key listed at most once. */
  predicate Distinct<K(==)>(ks: seq<K>) {
    forall i, j :: 0 <= i < j < |ks| ==> ks[i] != ks[j]
  }

  /** One increment of a key listed exactly once raises the listed sum by one; of an unlisted key, by nothing. */
  lemma {:induction false} SumOverBump<K(!new)>(m: map<K, nat>, ks: seq<K>, k: K)
    requires Distinct(ks)
    ensures SumOver(Bump(m, k), ks) == SumOver(m, ks) + (if k in ks then 1 else 0)
    decreases |ks|
  {
    if ks != [] {
      var init := ks[..|ks| - 1];
      SumOverBump(m, init, k);
      assert ks == init + [ks[|ks| - 1]];
      assert k in ks <==> k in init || k == ks[|ks| - 1];
    }
  }

  lemma {:induction false} SumOverEmpty<K>(ks: seq<K>)
    ensures SumOver(map[], ks) == 0
    decreases |ks|
  {
    if ks != [] { SumOverEmpty(ks[..|ks| - 1]); }
  }

  // ---------------------------------------------------------------------------
  // `Counter(keys).most_common(1)`
  // ---------------------------------------------------------------------------

  /** How many times the key at position `j` occurs in `keys`. */
  function Frequency<K(==)>(keys: seq<K>, j: int): nat
    requires 0 <= j < |keys|
  {
    multiset(keys)[keys[j]]
  }

  /** Position `f` holds a most frequent key among the first `i`, and no earlier position does. */
  predicate FirstMostFrequent<K(==)>(keys: seq<K>, i: int, f: int)
    requires 0 <= i <= |keys|
  {
    && 0 <= f < i
    && (forall j :: 0 <= j < i ==> Frequency(keys, j) <= Frequency(keys, f))
    && (forall j :: 0 <= j < f ==> Frequency(keys, j) < Frequency(keys, f))
  }

  /** Scan positions `i..` keeping the first position of strictly higher frequency. */
  function ScanMostFrequent<K(==)>(keys: seq<K>, i: nat, f: nat): (r: nat)
    requires i <= |keys|
    requires FirstMostFrequent(keys, i, f)
    ensures FirstMostFrequent(keys, |keys|, r)
    decreases |keys| - i
  {
    if i == |keys| then f
    else if Frequency(keys, i) > Frequency(keys, f) then ScanMostFrequent(keys, i + 1, i)
    else ScanMostFrequent(keys, i + 1, f)
  }

  /**
   * `Counter(keys).most_common(1)`: a key of maximal count with that count;
   * among keys of equal count, the one counted first wins, since the
   * counter keeps first-insertion order and the selection is stable.
   */
  function MostCommon<K(==)>(keys: seq<K>): (r: Option<(K, nat)>)
    ensures r.None? <==> keys == []
    ensures r.Some? ==> r.value.0 in keys && r.value.1 == multiset(keys)[r.value.0]
    ensures r.Some? ==> forall j :: 0 <= j < |keys| ==> Frequency(keys, j) <= r.value.1
  {
    if keys == [] then None
    else
      var f := ScanMostFrequent(keys, 1, 0);
      Some((keys[f], Frequency(keys, f)))
  }

  /** The first position at or after `k` holding `x`, when none before `k` does. */
  lemma {:induction false} FirstOccurrence<K>(keys: seq<K>, x: K, k: nat) returns (f: nat)
    requires k <= |keys| && exists g :: k <= g < |keys| && keys[g] == x
    requires forall g :: 0 <= g < k ==> keys[g] != x
    ensures f < |keys| && keys[f] == x
    ensures forall g :: 0 <= g < f ==> keys[g] != x
    decreases |keys| - k
  {
    if keys[k] == x {
      f := k;
    } else {
      f := FirstOccurrence(keys, x, k + 1);
    }
  }

  /** Among equally frequent keys the one whose first occurrence comes first is chosen. */
  lemma MostCommonFirstSeen<K>(keys: seq<K>, j: nat)
    requires j < |keys| && MostCommon(keys).Some?
    requires multiset(keys)[keys[j]] == MostCommon(keys).value.1
    ensures exists f :: 0 <= f <= j && keys[f] == MostCommon(keys).value.0
  {
    var f := ScanMostFrequent(keys, 1, 0);
    assert Frequency(keys, j) == Frequency(keys, f);
    assert f <= j;
    assert keys[f] == MostCommon(keys).value.0;
  }
}
