/**
 The bucketed histogram: observing, and estimating quantiles from bucket counts. The
 estimate is characterised by the exact order statistic of everything observed.
 */
module Histogram {
  import opened OrderStatistics
  import opened Sums

  function Power2(n: nat): (p: real)
    ensures p >= 1.0
  {
    if n == 0 then 1.0 else 2.0 * Power2(n - 1)
  }

  /** math.MaxFloat64. */
  const MAX_FLOAT64: real := 9007199254740991.0 * Power2(971)

  type float64 = x: real | 0.0 - MAX_FLOAT64 <= x <= MAX_FLOAT64 witness 0.0

  ghost predicate Increasing(bounds: seq<real>) {
    forall i, j :: 0 <= i < j < |bounds| ==> bounds[i] < bounds[j]
  }

  /** The first bucket whose upper bound is at least `x`; the overflow bucket if there is none. */
  function BucketOf(bounds: seq<real>, x: real): (b: nat)
    ensures b <= |bounds|
    ensures b < |bounds| ==> x <= bounds[b]
    ensures forall i :: 0 <= i < b ==> bounds[i] < x
  {
    if bounds == [] || x <= bounds[0] then 0 else 1 + BucketOf(bounds[1..], x)
  }

  /** How many observations fall in bucket `b`. */
  function CountIn(bounds: seq<real>, obs: seq<real>, b: nat): nat {
    if obs == [] then 0
    else CountIn(bounds, obs[..|obs| - 1], b) + if BucketOf(bounds, obs[|obs| - 1]) == b then 1 else 0
  }

  /** How many fall in the first `n` buckets. */
  function CountBelow(bounds: seq<real>, obs: seq<real>, n: nat): nat {
    if n == 0 then 0 else CountBelow(bounds, obs, n - 1) + CountIn(bounds, obs, n - 1)
  }

  /** The largest of `least` and the observations. */
  function LargestOver(obs: seq<real>, least: real): real {
    if obs == [] then least
    else
      var m := LargestOver(obs[..|obs| - 1], least);
      var x := obs[|obs| - 1];
      if x > m then x else m
  }

  function SmallestUnder(obs: seq<real>, most: real): real {
    if obs == [] then most
    else
      var m := SmallestUnder(obs[..|obs| - 1], most);
      var x := obs[|obs| - 1];
      if x < m then x else m
  }

  function Largest(obs: seq<float64>): real {
    LargestOver(obs, 0.0 - MAX_FLOAT64)
  }

  function Smallest(obs: seq<float64>): real {
    SmallestUnder(obs, MAX_FLOAT64)
  }

  // ---- Bucket counts against exact counts --------------------------------------------

  lemma {:induction false} AddObservation(bounds: seq<real>, obs: seq<real>, x: real, n: nat)
    ensures CountBelow(bounds, obs + [x], n) == CountBelow(bounds, obs, n) + if BucketOf(bounds, x) < n then 1 else 0
  {
    assert (obs + [x])[..|obs|] == obs;
    if n > 0 {
      AddObservation(bounds, obs, x, n - 1);
    }
  }

  lemma {:induction false} NoObservations(bounds: seq<real>, n: nat)
    ensures CountBelow(bounds, [], n) == 0
  {
    if n > 0 {
      NoObservations(bounds, n - 1);
    }
  }

  /** The first `n` buckets hold exactly the observations up to the n-th bound. */
  lemma {:induction false} BelowIsCountLe(bounds: seq<real>, obs: seq<real>, n: nat)
    requires Increasing(bounds) && 1 <= n <= |bounds|
    ensures CountBelow(bounds, obs, n) == CountLe(obs, bounds[n - 1])
  {
    if obs == [] {
      NoObservations(bounds, n);
    } else {
      var before, x := obs[..|obs| - 1], obs[|obs| - 1];
      BelowIsCountLe(bounds, before, n);
      AddObservation(bounds, before, x, n);
      CountLeConcat(before, [x], bounds[n - 1]);
      assert obs == before + [x];
      var b := BucketOf(bounds, x);
      assert b < n <==> x <= bounds[n - 1];
    }
  }

  /** All buckets together hold every observation. */
  lemma {:induction false} BucketsHoldAll(bounds: seq<real>, obs: seq<real>)
    ensures CountBelow(bounds, obs, |bounds| + 1) == |obs|
  {
    if obs == [] {
      NoObservations(bounds, |bounds| + 1);
    } else {
      var before, x := obs[..|obs| - 1], obs[|obs| - 1];
      BucketsHoldAll(bounds, before);
      AddObservation(bounds, before, x, |bounds| + 1);
      assert obs == before + [x];
    }
  }

  lemma {:induction false} LargestOverSpec(obs: seq<real>, least: real)
    requires forall x :: x in obs ==> least <= x
    ensures forall x :: x in obs ==> x <= LargestOver(obs, least)
    ensures obs == [] ==> LargestOver(obs, least) == least
    ensures obs != [] ==> LargestOver(obs, least) in obs
  {
    if obs != [] {
      var before, x := obs[..|obs| - 1], obs[|obs| - 1];
      assert obs == before + [x];
      assert forall y :: y in before ==> y in obs;
      LargestOverSpec(before, least);
      assert x in obs;
    }
  }

  lemma LargestSpec(obs: seq<float64>)
    ensures forall x :: x in obs ==> x <= Largest(obs)
    ensures obs != [] ==> Largest(obs) in obs
  {
    forall x | x in obs
      ensures 0.0 - MAX_FLOAT64 <= x
    {
      var i :| 0 <= i < |obs| && obs[i] == x;
    }
    LargestOverSpec(obs, 0.0 - MAX_FLOAT64);
  }

  lemma {:induction false} SmallestUnderSpec(obs: seq<real>, most: real)
    requires forall x :: x in obs ==> x <= most
    ensures forall x :: x in obs ==> SmallestUnder(obs, most) <= x
    ensures obs == [] ==> SmallestUnder(obs, most) == most
    ensures obs != [] ==> SmallestUnder(obs, most) in obs
  {
    if obs != [] {
      var before, x := obs[..|obs| - 1], obs[|obs| - 1];
      assert obs == before + [x];
      assert forall y :: y in before ==> y in obs;
      SmallestUnderSpec(before, most);
      assert x in obs;
    }
  }

  /** Once something has been observed the two extremes are the least and the greatest of it. */
  lemma ExtremesAre(obs: seq<float64>)
    requires obs != []
    ensures Smallest(obs) in obs && forall x :: x in obs ==> Smallest(obs) <= x
    ensures Largest(obs) in obs && forall x :: x in obs ==> x <= Largest(obs)
  {
    LargestSpec(obs);
    forall x | x in obs
      ensures x <= MAX_FLOAT64
    {
      var i :| 0 <= i < |obs| && obs[i] == x;
    }
    SmallestUnderSpec(obs, MAX_FLOAT64);
  }

  // ---- The estimate -----------------------------------------------------------------------

  function Ceil(x: real): int {
    0 - (0.0 - x).Floor
  }

  /** Rank of the q-quantile among `n` observations. */
  function Rank(q: real, n: nat): int {
    Ceil(q * n as real)
  }

  /** It is the least whole number that is at least the q-th part of `n`. */
  lemma RankIs(q: real, n: nat)
    ensures q * n as real <= Rank(q, n) as real < q * n as real + 1.0
  {
  }

  lemma RankInRange(q: real, n: nat)
    requires 0.0 < q <= 1.0 && n > 0
    ensures 1 <= Rank(q, n) <= n
  {
    var x := q * n as real;
    assert 0.0 < x <= n as real;
  }

  lemma RankBeyond(q: real, n: nat)
    requires q > 1.0 && n > 0
    ensures Rank(q, n) > n
  {
    assert (q - 1.0) * n as real > 0.0;
    assert q * n as real == (q - 1.0) * n as real + n as real;
  }

  lemma {:induction false} BelowAscends(bounds: seq<real>, obs: seq<real>, n: nat, m: nat)
    requires n <= m
    ensures CountBelow(bounds, obs, n) <= CountBelow(bounds, obs, m)
  {
    if n < m {
      BelowAscends(bounds, obs, n, m - 1);
    }
  }

  /** No bucket brings the cumulative count above the number of observations. */
  lemma BelowAtMostAll(bounds: seq<real>, obs: seq<real>, b: nat)
    requires b <= |bounds|
    ensures CountBelow(bounds, obs, b + 1) <= |obs|
  {
    BucketsHoldAll(bounds, obs);
    BelowAscends(bounds, obs, b + 1, |bounds| + 1);
  }

  lemma RankZero(n: nat)
    ensures Rank(0.0, n) == 0
  {
    assert 0.0 * n as real == 0.0;
  }

  /** Least bound that reaches the k-th smallest observation, or the true maximum. */
  function Estimate(bounds: seq<real>, obs: seq<float64>, k: nat): real
    requires 1 <= k <= |obs|
  {
    var b := BucketOf(bounds, Kth(obs, k));
    if b < |bounds| then bounds[b] else Largest(obs)
  }

  lemma ReachedIff(bounds: seq<real>, obs: seq<float64>, k: nat, i: nat)
    requires Increasing(bounds) && 1 <= k <= |obs| && i <= |bounds|
    ensures CountBelow(bounds, obs, i + 1) >= k <==> BucketOf(bounds, Kth(obs, k)) <= i
  {
    if i < |bounds| {
      BelowIsCountLe(bounds, obs, i + 1);
      KthAtMost(obs, k, bounds[i]);
      var b := BucketOf(bounds, Kth(obs, k));
      assert i < b ==> bounds[i] < Kth(obs, k);
    } else {
      BucketsHoldAll(bounds, obs);
    }
  }

  lemma ScanFinds(bounds: seq<real>, obs: seq<float64>, k: nat, b: nat)
    requires Increasing(bounds) && 1 <= k <= |obs| && b <= |bounds|
    requires b > 0 ==> CountBelow(bounds, obs, b) < k
    requires b < |bounds| ==> CountBelow(bounds, obs, b + 1) >= k
    ensures b == BucketOf(bounds, Kth(obs, k))
  {
    ReachedIff(bounds, obs, k, b);
    if b > 0 {
      ReachedIff(bounds, obs, k, b - 1);
    }
  }

  // ---- The object ----------------------------------------------------------------------------

  class Histogram {
    const buckets: seq<real>
    const bucketCnt: array<nat>
    var count: nat
    var sum: real
    var min: real
    var max: real
    /** Everything observed so far. */
    ghost var observed: seq<float64>

    ghost predicate Valid()
      reads this, bucketCnt
    {
      && Increasing(buckets)
      && bucketCnt.Length == |buckets| + 1
      && (forall b :: 0 <= b <= |buckets| ==> bucketCnt[b] == CountIn(buckets, observed, b))
      && count == |observed| && sum == Sum(observed)
      && min == Smallest(observed) && max == Largest(observed)
    }

    constructor (buckets: seq<real>)
      requires Increasing(buckets)
      ensures Valid() && fresh(bucketCnt) && observed == [] && this.buckets == buckets
    {
      this.buckets := buckets;
      bucketCnt := new nat[|buckets| + 1](_ => 0);
      count, sum, min, max := 0, 0.0, MAX_FLOAT64, 0.0 - MAX_FLOAT64;
      observed := [];
    }

    /** Index of the bucket for `value`. */
    method Place(value: real) returns (b: nat)
      ensures b == BucketOf(buckets, value)
    {
      b := 0;
      while b < |buckets|
        invariant b <= |buckets|
        invariant forall i :: 0 <= i < b ==> buckets[i] < value
      {
        if value <= buckets[b] {
          return;
        }
        b := b + 1;
      }
    }

    method Observe(value: float64)
      requires Valid()
      modifies this, bucketCnt
      ensures Valid() && observed == old(observed) + [value]
    {
      count := count + 1;
      sum := sum + value;
      if value < min {
        min := value;
      }
      if value > max {
        max := value;
      }
      var b := Place(value);
      bucketCnt[b] := bucketCnt[b] + 1;
      observed := observed + [value];
      assert observed[..|observed| - 1] == old(observed);
    }

    /** First bucket at which the cumulative count reaches `target`; the last one if none does. */
    method Scan(target: int) returns (b: nat)
      requires Valid()
      ensures b <= |buckets|
      ensures b > 0 ==> CountBelow(buckets, observed, b) < target
      ensures b < |buckets| ==> CountBelow(buckets, observed, b + 1) >= target
    {
      var cumulative := 0;
      b := 0;
      while b < bucketCnt.Length
        invariant b <= bucketCnt.Length
        invariant cumulative == CountBelow(buckets, observed, b)
        invariant b > 0 ==> cumulative < target
      {
        cumulative := cumulative + bucketCnt[b];
        if cumulative >= target {
          return;
        }
        b := b + 1;
      }
      b := |buckets|;
    }

    /** The scan over cumulative counts, without the range check on `q`. */
    method QuantileLocked(q: real) returns (r: real)
      requires Valid() && q >= 0.0
      ensures count == 0 ==> r == 0.0
      ensures count > 0 && 0.0 < q <= 1.0 ==>
                && 1 <= Rank(q, count) <= |observed|
                && r == Estimate(buckets, observed, Rank(q, count))
      ensures count > 0 && q == 0.0 ==> r == if buckets == [] then max else buckets[0]
      ensures count > 0 && q > 1.0 ==> r == Largest(observed)
    {
      if count == 0 {
        return 0.0;
      }
      var target := Rank(q, count);
      var b := Scan(target);
      if 0.0 < q <= 1.0 {
        RankInRange(q, count);
        ScanFinds(buckets, observed, target, b);
      } else if q == 0.0 {
        RankZero(count);
        assert b == 0;
      } else {
        RankBeyond(q, count);
        BelowAtMostAll(buckets, observed, b);
      }
      return if b < |buckets| then buckets[b] else max;
    }

    method Quantile(q: real) returns (r: real)
      requires Valid()
      ensures count == 0 || q < 0.0 || q > 1.0 ==> r == 0.0
      ensures count > 0 && 0.0 < q <= 1.0 ==>
                && 1 <= Rank(q, count) <= |observed|
                && r == Estimate(buckets, observed, Rank(q, count))
      ensures count > 0 && q == 0.0 ==> r == if buckets == [] then max else buckets[0]
    {
      if count == 0 || q < 0.0 || q > 1.0 {
        return 0.0;
      }
      r := QuantileLocked(q);
    }
  }

  // ---- What the estimate means ---------------------------------------------------------------------

  /**
   The estimate is the least bucket bound that is at least the exact ceil(q n)-th smallest
   observation; when that observation exceeds every bound it is the largest observation.
   */
  lemma EstimateIsLeastBound(bounds: seq<real>, obs: seq<float64>, q: real)
    requires 0.0 < q <= 1.0 && obs != []
    ensures 1 <= Rank(q, |obs|) <= |obs|
    ensures var v, e := Kth(obs, Rank(q, |obs|)), Estimate(bounds, obs, Rank(q, |obs|));
            && ((exists i :: 0 <= i < |bounds| && v <= bounds[i]) ==>
                  exists i :: 0 <= i < |bounds| && e == bounds[i] && v <= e && forall j :: 0 <= j < i ==> bounds[j] < v)
            && ((forall i :: 0 <= i < |bounds| ==> bounds[i] < v) ==>
                  e in obs && v <= e && forall x :: x in obs ==> x <= e)
            && v <= e
  {
    RankInRange(q, |obs|);
    var k := Rank(q, |obs|);
    KthMember(obs, k);
    LargestSpec(obs);
    var b := BucketOf(bounds, Kth(obs, k));
    if b < |bounds| {
      assert bounds[b] == Estimate(bounds, obs, k);
    }
  }

  lemma RankMonotone(q: real, p: real, n: nat)
    requires q <= p
    ensures Rank(q, n) <= Rank(p, n)
  {
    assert (p - q) * n as real >= 0.0;
    assert p * n as real - q * n as real == (p - q) * n as real;
  }

  /** A larger quantile never gets a smaller estimate. */
  lemma EstimateMonotone(bounds: seq<real>, obs: seq<float64>, q: real, p: real)
    requires Increasing(bounds) && obs != [] && 0.0 < q <= p <= 1.0
    ensures 1 <= Rank(q, |obs|) <= Rank(p, |obs|) <= |obs|
    ensures Estimate(bounds, obs, Rank(q, |obs|)) <= Estimate(bounds, obs, Rank(p, |obs|))
  {
    RankInRange(q, |obs|);
    RankInRange(p, |obs|);
    RankMonotone(q, p, |obs|);
    var j, k := Rank(q, |obs|), Rank(p, |obs|);
    KthMonotone(obs, j, k);
    KthMember(obs, k);
    LargestSpec(obs);
    var c, d := BucketOf(bounds, Kth(obs, j)), BucketOf(bounds, Kth(obs, k));
    assert c <= d;
  }
}
