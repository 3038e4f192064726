/**
 Sequential drift detectors: the Page-Hinkley statistic against its CUSUM form, the two-sample
 Kolmogorov-Smirnov statistic against the supremum it stands for, and the sliding windows
 of the KS and ADWIN detectors against the stream. Floats are reals.
 */
module ConceptDrift {
  import opened Basics
  import opened OrderStatistics
  import opened Sums

  // ---- Page-Hinkley -------------------------------------------------------------------

  function Mean(xs: seq<real>): real
    requires xs != []
  {
    Sum(xs) / |xs| as real
  }

  function Repeat(v: real, n: nat): (r: seq<real>)
    ensures |r| == n && forall i :: 0 <= i < n ==> r[i] == v
  {
    seq(n, _ => v)
  }

  lemma RepeatSnoc(v: real, n: nat)
    ensures Repeat(v, n) + [v] == Repeat(v, n + 1)
  {
  }

  lemma SumSnoc(xs: seq<real>, v: real)
    ensures Sum(xs + [v]) == Sum(xs) + v
  {
    assert (xs + [v])[..|xs|] == xs;
  }

  lemma TimesOneMore(v: real, n: nat)
    ensures (n + 1) as real * v == n as real * v + v
  {
  }

  lemma SumOfOneMore(v: real, n: nat)
    ensures Sum(Repeat(v, n + 1)) == Sum(Repeat(v, n)) + v
  {
    RepeatSnoc(v, n);
    SumSnoc(Repeat(v, n), v);
  }

  lemma {:induction false} SumOfRepeat(v: real, n: nat)
    ensures Sum(Repeat(v, n)) == n as real * v
  {
    if n > 0 {
      SumOfRepeat(v, n - 1);
      SumOfOneMore(v, n - 1);
      TimesOneMore(v, n - 1);
    }
  }

  lemma MeanOfRepeat(v: real, n: nat)
    requires n >= 1
    ensures Mean(Repeat(v, n)) == v
  {
    SumOfRepeat(v, n);
  }

  /** How far the last value lies above the running mean, less the tolerance. */
  function Deviation(xs: seq<real>, delta: real): real
    requires xs != []
  {
    xs[|xs| - 1] - Mean(xs) - delta
  }

  /** The running total of the deviations. */
  function Walk(xs: seq<real>, delta: real): real {
    if xs == [] then 0.0 else Walk(xs[..|xs| - 1], delta) + Deviation(xs, delta)
  }

  /** The least total seen so far. */
  function LeastWalk(xs: seq<real>, delta: real): real
    requires xs != []
  {
    var w := Walk(xs, delta);
    if |xs| == 1 then w
    else
      var m := LeastWalk(xs[..|xs| - 1], delta);
      if w < m then w else m
  }

  /** The CUSUM recurrence. */
  function Cusum(xs: seq<real>, delta: real): real
    requires xs != []
  {
    if |xs| == 1 then 0.0
    else
      var g := Cusum(xs[..|xs| - 1], delta) + Deviation(xs, delta);
      if g > 0.0 then g else 0.0
  }

  /** The total of the deviations from position `k` on. */
  function SuffixSum(xs: seq<real>, delta: real, k: nat): real
    requires k <= |xs|
  {
    if k == |xs| then 0.0 else SuffixSum(xs[..|xs| - 1], delta, k) + Deviation(xs, delta)
  }

  lemma PageHinkleyStep(xs: seq<real>, v: real, delta: real)
    ensures var ys := xs + [v];
            && Sum(ys) == Sum(xs) + v
            && Walk(ys, delta) == Walk(xs, delta) + v - Mean(ys) - delta
            && LeastWalk(ys, delta) == (if xs != [] && LeastWalk(xs, delta) <= Walk(ys, delta)
                                        then LeastWalk(xs, delta) else Walk(ys, delta))
  {
    assert (xs + [v])[..|xs|] == xs;
  }

  class PageHinkleyDetector {
    const delta: real
    const threshold: real
    const minInstances: nat
    var n: nat
    var sum: real
    var xMean: real
    var mN: real
    /** Infinity is None. */
    var mMin: Option<real>
    /** The values since the last reset. */
    ghost var stream: seq<real>

    ghost predicate Valid()
      reads this
    {
      && n == |stream| && sum == Sum(stream)
      && xMean == (if stream == [] then 0.0 else Mean(stream))
      && mN == Walk(stream, delta)
      && mMin == if stream == [] then None else Some(LeastWalk(stream, delta))
    }

    constructor (delta: real, threshold: real, minInstances: nat)
      ensures Valid() && stream == []
      ensures this.delta == delta && this.threshold == threshold && this.minInstances == minInstances
    {
      this.delta, this.threshold, this.minInstances := delta, threshold, minInstances;
      n, sum, xMean, mN, mMin, stream := 0, 0.0, 0.0, 0.0, None, [];
    }

    method Update(value: real) returns (drift: bool)
      requires Valid()
      modifies this
      ensures Valid() && stream == old(stream) + [value]
      ensures drift <==> |stream| >= minInstances && Cusum(stream, delta) > threshold
    {
      PageHinkleyStep(stream, value, delta);
      stream := stream + [value];
      n := n + 1;
      sum := sum + value;
      xMean := sum / n as real;
      assert xMean == Mean(stream);
      mN := mN + value - xMean - delta;
      mMin := Some(if mMin.Some? && mMin.value <= mN then mMin.value else mN);
      StatisticIsCusum(stream, delta);
      if n < minInstances {
        return false;
      }
      return mN - mMin.value > threshold;
    }

    method Reset()
      modifies this
      ensures Valid() && stream == []
    {
      n, sum, xMean, mN, mMin, stream := 0, 0.0, 0.0, 0.0, None, [];
    }
  }

  /** The incremental statistic is the CUSUM recurrence. */
  lemma {:induction false} StatisticIsCusum(xs: seq<real>, delta: real)
    requires xs != []
    ensures Walk(xs, delta) - LeastWalk(xs, delta) == Cusum(xs, delta)
  {
    if |xs| > 1 {
      StatisticIsCusum(xs[..|xs| - 1], delta);
    }
  }

  /** It is also the largest sum of deviations over a suffix, the first value never included. */
  lemma {:induction false} CusumIsMaxSuffix(xs: seq<real>, delta: real)
    requires xs != []
    ensures forall k :: 1 <= k <= |xs| ==> SuffixSum(xs, delta, k) <= Cusum(xs, delta)
    ensures exists k :: 1 <= k <= |xs| && SuffixSum(xs, delta, k) == Cusum(xs, delta)
  {
    if |xs| == 1 {
      assert SuffixSum(xs, delta, 1) == 0.0;
    } else {
      var before := xs[..|xs| - 1];
      CusumIsMaxSuffix(before, delta);
      assert forall k :: 1 <= k < |xs| ==>
          SuffixSum(xs, delta, k) == SuffixSum(before, delta, k) + Deviation(xs, delta);
      assert SuffixSum(xs, delta, |xs|) == 0.0;
      var k :| 1 <= k <= |before| && SuffixSum(before, delta, k) == Cusum(before, delta);
      assert SuffixSum(xs, delta, k) == Cusum(before, delta) + Deviation(xs, delta);
    }
  }

  ghost predicate NonIncreasing(xs: seq<real>) {
    forall i, j :: 0 <= i < j < |xs| ==> xs[i] >= xs[j]
  }

  lemma {:induction false} SumAtLeast(xs: seq<real>, low: real)
    requires forall i :: 0 <= i < |xs| ==> xs[i] >= low
    ensures Sum(xs) >= |xs| as real * low
  {
    if xs != [] {
      var n := |xs| - 1;
      SumAtLeast(xs[..n], low);
      assert |xs| as real * low == n as real * low + low;
    }
  }

  lemma MeanAtLeastLast(xs: seq<real>)
    requires xs != [] && NonIncreasing(xs)
    ensures Mean(xs) >= xs[|xs| - 1]
  {
    var low, n := xs[|xs| - 1], |xs| as real;
    SumAtLeast(xs, low);
    var m := Mean(xs);
    assert m * n == Sum(xs);
    assert (m - low) * n >= 0.0;
    assert m < low ==> (m - low) * n < 0.0;
  }

  /** With non-negative tolerance and threshold, a stream that never rises never signals drift. */
  lemma {:induction false} FallingStreamNeverDrifts(xs: seq<real>, delta: real)
    requires xs != [] && NonIncreasing(xs) && delta >= 0.0
    ensures Cusum(xs, delta) == 0.0
  {
    if |xs| > 1 {
      FallingStreamNeverDrifts(xs[..|xs| - 1], delta);
      MeanAtLeastLast(xs);
    }
  }

  lemma MeanWithOneMore(low: real, high: real, n: nat)
    ensures Mean(Repeat(low, n) + [high]) * (n + 1) as real == n as real * low + high
  {
    SumOfRepeat(low, n);
    SumSnoc(Repeat(low, n), high);
    QuotientTimes(n as real * low + high, (n + 1) as real);
  }

  lemma QuotientTimes(x: real, t: real)
    requires t != 0.0
    ensures x / t * t == x
  {
  }

  /**
   What one higher value after `n` equal ones does to the statistic: it is n parts of n + 1 of the rise, less the
   tolerance, if that is above zero.
   */
  lemma OneRise(low: real, high: real, n: nat, delta: real)
    requires n >= 1 && delta >= 0.0
    ensures var g := n as real * (high - low) - (n + 1) as real * delta;
            Cusum(Repeat(low, n) + [high], delta) * (n + 1) as real == if g > 0.0 then g else 0.0
  {
    var xs := Repeat(low, n) + [high];
    assert xs[..|xs| - 1] == Repeat(low, n);
    FallingStreamNeverDrifts(Repeat(low, n), delta);
    MeanWithOneMore(low, high, n);
    RiseTimes(high, Mean(xs), delta, low, n);
  }

  lemma RiseTimes(high: real, mean: real, delta: real, low: real, n: nat)
    requires mean * (n + 1) as real == n as real * low + high
    ensures var d, g := high - mean - delta, n as real * (high - low) - (n + 1) as real * delta;
            d * (n + 1) as real == g && (d > 0.0 <==> g > 0.0)
  {
    var q := (n + 1) as real;
    var d := high - mean - delta;
    assert d * q == high * q - mean * q - delta * q;
    assert high * q == n as real * high + high;
    assert d > 0.0 ==> d * q > 0.0;
    assert d <= 0.0 ==> (0.0 - d) * q >= 0.0;
  }

  // ---- Kolmogorov-Smirnov ------------------------------------------------------------------

  /** The share of the sample that is at most `x`. */
  function Cdf(sample: seq<real>, x: real): real
    requires sample != []
  {
    CountLe(sample, x) as real / |sample| as real
  }

  function Abs(x: real): real {
    if x >= 0.0 then x else 0.0 - x
  }

  function Difference(ref: seq<real>, test: seq<real>, x: real): real
    requires ref != [] && test != []
  {
    Abs(Cdf(ref, x) - Cdf(test, x))
  }

  /** The largest difference over the points `at`. */
  function LargestDifference(ref: seq<real>, test: seq<real>, at: seq<real>): real
    requires ref != [] && test != [] && at != []
  {
    var d := Difference(ref, test, at[|at| - 1]);
    if |at| == 1 then d
    else
      var m := LargestDifference(ref, test, at[..|at| - 1]);
      if d > m then d else m
  }

  function KsStatistic(ref: seq<real>, test: seq<real>): real
    requires ref != [] && test != []
  {
    SortSpec(ref + test, 0.0);
    LargestDifference(ref, test, Sort(ref + test))
  }

  lemma {:induction false} LargestDifferenceSpec(ref: seq<real>, test: seq<real>, at: seq<real>)
    requires ref != [] && test != [] && at != []
    ensures forall i :: 0 <= i < |at| ==> Difference(ref, test, at[i]) <= LargestDifference(ref, test, at)
    ensures exists i :: 0 <= i < |at| && Difference(ref, test, at[i]) == LargestDifference(ref, test, at)
  {
    var n := |at| - 1;
    if n > 0 {
      LargestDifferenceSpec(ref, test, at[..n]);
      var i :| 0 <= i < n && Difference(ref, test, at[..n][i]) == LargestDifference(ref, test, at[..n]);
      assert at[i] == at[..n][i];
      assert forall j :: 0 <= j < n ==> Difference(ref, test, at[..n][j]) <= LargestDifference(ref, test, at[..n]);
      assert forall j :: 0 <= j < n ==> at[j] == at[..n][j];
    }
    assert Difference(ref, test, at[n]) <= LargestDifference(ref, test, at);
  }

  /** No sample point in (s, x] means the same count at both. */
  lemma {:induction false} SameCount(xs: seq<real>, s: real, x: real)
    requires s <= x && forall i :: 0 <= i < |xs| ==> !(s < xs[i] <= x)
    ensures CountLe(xs, s) == CountLe(xs, x)
  {
    if xs != [] {
      SameCount(xs[1..], s, x);
    }
  }

  /** The largest element at most `x`, if there is one. */
  lemma {:induction false} LargestBelow(xs: seq<real>, x: real) returns (s: Option<real>)
    ensures s.Some? ==> s.value in xs && s.value <= x && forall i :: 0 <= i < |xs| ==> !(s.value < xs[i] <= x)
    ensures s.None? ==> forall i :: 0 <= i < |xs| ==> x < xs[i]
  {
    if xs == [] {
      s := None;
    } else {
      s := LargestBelow(xs[1..], x);
      if xs[0] <= x && (s.None? || s.value < xs[0]) {
        s := Some(xs[0]);
      }
      assert xs == [xs[0]] + xs[1..];
    }
  }

  lemma DifferenceAtSample(ref: seq<real>, test: seq<real>, x: real)
    requires ref != [] && test != []
    ensures Difference(ref, test, x) == 0.0
         || exists s :: s in ref + test && Difference(ref, test, x) == Difference(ref, test, s)
  {
    var all := ref + test;
    assert forall i :: 0 <= i < |ref| ==> ref[i] == all[i];
    assert forall i :: 0 <= i < |test| ==> test[i] == all[|ref| + i];
    var s := LargestBelow(all, x);
    if s.None? {
      NoneLe(ref, x);
      NoneLe(test, x);
    } else {
      SameCount(ref, s.value, x);
      SameCount(test, s.value, x);
      assert Difference(ref, test, x) == Difference(ref, test, s.value);
    }
  }

  /**
   The statistic, evaluated only at sample points, is the supremum over all reals of the distance
   between the two empirical distributions, and it is reached.
   */
  lemma KsIsSupremum(ref: seq<real>, test: seq<real>)
    requires ref != [] && test != []
    ensures forall x :: Difference(ref, test, x) <= KsStatistic(ref, test)
    ensures exists x :: x in ref + test && Difference(ref, test, x) == KsStatistic(ref, test)
  {
    var all := ref + test;
    var at := Sort(all);
    SortSpec(all, 0.0);
    LargestDifferenceSpec(ref, test, at);
    var m :| 0 <= m < |at| && Difference(ref, test, at[m]) == LargestDifference(ref, test, at);
    assert at[m] in at;
    forall x
      ensures Difference(ref, test, x) <= KsStatistic(ref, test)
    {
      DifferenceAtSample(ref, test, x);
      if Difference(ref, test, x) != 0.0 {
        var s :| s in all && Difference(ref, test, x) == Difference(ref, test, s);
        assert s in at;
        var i :| 0 <= i < |at| && at[i] == s;
        assert Difference(ref, test, at[i]) <= KsStatistic(ref, test);
      }
    }
  }

  /**
   The p-value of a statistic. `series` stands for the Kolmogorov series, used strictly between
   0 and 1; the two ends are as in the source.
   */
  function PValue(d: real, series: real -> real): real {
    if d <= 0.0 then 0.0
    else if d >= 1.0 then 1.0
    else if series(d) > 1.0 then 1.0
    else if series(d) < 0.0 then 0.0
    else series(d)
  }

  lemma CdfRange(sample: seq<real>, x: real)
    requires sample != []
    ensures 0.0 <= Cdf(sample, x) <= 1.0
    ensures CountLe(sample, x) == 0 <==> Cdf(sample, x) == 0.0
    ensures CountLe(sample, x) == |sample| <==> Cdf(sample, x) == 1.0
  {
    Share(CountLe(sample, x) as real, |sample| as real);
  }

  lemma Share(c: real, n: real)
    requires 0.0 <= c <= n && n > 0.0
    ensures 0.0 <= c / n <= 1.0
    ensures c == 0.0 <==> c / n == 0.0
    ensures c == n <==> c / n == 1.0
  {
    var y := c / n;
    assert y * n == c;
    assert y > 1.0 ==> (y - 1.0) * n > 0.0;
  }

  lemma {:induction false} AllBelowIff(xs: seq<real>, x: real)
    ensures CountLe(xs, x) == |xs| <==> forall i :: 0 <= i < |xs| ==> xs[i] <= x
  {
    if xs != [] {
      AllBelowIff(xs[1..], x);
      assert forall i :: 0 < i < |xs| ==> xs[i] == xs[1..][i - 1];
    }
  }

  lemma {:induction false} NoneBelowIff(xs: seq<real>, x: real)
    ensures CountLe(xs, x) == 0 <==> forall i :: 0 <= i < |xs| ==> x < xs[i]
  {
    if xs != [] {
      NoneBelowIff(xs[1..], x);
      assert forall i :: 0 < i < |xs| ==> xs[i] == xs[1..][i - 1];
    }
  }

  /** Everything in `low` is at most `x`, everything in `high` above it. */
  ghost predicate Splits(low: seq<real>, high: seq<real>, x: real) {
    && (forall i :: 0 <= i < |low| ==> low[i] <= x)
    && (forall i :: 0 <= i < |high| ==> x < high[i])
  }

  lemma DifferenceOneIff(ref: seq<real>, test: seq<real>, x: real)
    requires ref != [] && test != []
    ensures 0.0 <= Difference(ref, test, x) <= 1.0
    ensures Difference(ref, test, x) == 1.0 <==> Splits(ref, test, x) || Splits(test, ref, x)
  {
    CdfRange(ref, x);
    CdfRange(test, x);
    AllBelowIff(ref, x);
    AllBelowIff(test, x);
    NoneBelowIff(ref, x);
    NoneBelowIff(test, x);
  }

  lemma KsZeroIff(ref: seq<real>, test: seq<real>)
    requires ref != [] && test != []
    ensures KsStatistic(ref, test) <= 0.0 <==> forall x :: Cdf(ref, x) == Cdf(test, x)
  {
    KsIsSupremum(ref, test);
    var s :| s in ref + test && Difference(ref, test, s) == KsStatistic(ref, test);
    if forall x :: Cdf(ref, x) == Cdf(test, x) {
      assert Cdf(ref, s) == Cdf(test, s);
    }
    if KsStatistic(ref, test) <= 0.0 {
      forall x
        ensures Cdf(ref, x) == Cdf(test, x)
      {
        assert Difference(ref, test, x) <= KsStatistic(ref, test);
      }
    }
  }

  lemma CountTwo(a: real, b: real, x: real)
    ensures CountLe([a, b], x) == (if a <= x then 1 else 0) + (if b <= x then 1 else 0)
  {
    assert [a, b][1..] == [b] && [b][1..] == [];
  }

  lemma HalfApart(a: real, b: real, c: real, x: real)
    requires a < b < c
    ensures Difference([a, b], [b, c], x) == if a <= x < c then 0.5 else 0.0
  {
    CountTwo(a, b, x);
    CountTwo(b, c, x);
  }

  /** Two windows of two values that share one of them are half apart. */
  lemma HalfOverlap(a: real, b: real, c: real)
    requires a < b < c
    ensures KsStatistic([a, b], [b, c]) == 0.5
  {
    KsIsSupremum([a, b], [b, c]);
    forall x
      ensures Difference([a, b], [b, c], x) == if a <= x < c then 0.5 else 0.0
    {
      HalfApart(a, b, c, x);
    }
    assert Difference([a, b], [b, c], a) == 0.5;
  }

  lemma KsOneIff(ref: seq<real>, test: seq<real>)
    requires ref != [] && test != []
    ensures KsStatistic(ref, test) >= 1.0 <==> exists x :: Splits(ref, test, x) || Splits(test, ref, x)
  {
    KsIsSupremum(ref, test);
    var s :| s in ref + test && Difference(ref, test, s) == KsStatistic(ref, test);
    DifferenceOneIff(ref, test, s);
    if x :| Splits(ref, test, x) || Splits(test, ref, x) {
      DifferenceOneIff(ref, test, x);
      assert Difference(ref, test, x) <= KsStatistic(ref, test);
    }
  }

  /**
   The detector is meant to report windows from different distributions. Its p-value has the two ends
   the wrong way round: it is the constant 0 exactly when the windows have the same empirical distribution,
   which is therefore always reported, and the constant 1 exactly when they do not overlap at all, which never is.
   In between it is the Kolmogorov series.
   */
  lemma EndsAreReversed(ref: seq<real>, test: seq<real>, series: real -> real, threshold: real)
    requires ref != [] && test != [] && 0.0 < threshold <= 1.0
    ensures var d := KsStatistic(ref, test);
            var same := forall x :: Cdf(ref, x) == Cdf(test, x);
            var apart := exists x :: Splits(ref, test, x) || Splits(test, ref, x);
            && (same ==> PValue(d, series) < threshold)
            && (apart ==> !(PValue(d, series) < threshold))
            && (!same && !apart ==> 0.0 < d < 1.0)
            && (!same && !apart ==> (PValue(d, series) < threshold <==> series(d) < threshold))
  {
    KsZeroIff(ref, test);
    KsOneIff(ref, test);
  }

  lemma SuffixSnoc(xs: seq<real>, from: nat, v: real)
    requires from <= |xs|
    ensures xs[from..] + [v] == (xs + [v])[from..]
  {
  }

  lemma LastOfSuffix(xs: seq<real>, suffix: seq<real>, n: nat)
    requires |suffix| <= |xs| && suffix == xs[|xs| - |suffix|..]
    ensures Last(suffix, n) == xs[|xs| - |Last(suffix, n)|..]
  {
  }

  lemma BlockKept(xs: seq<real>, from: nat, to: nat, v: real)
    requires from <= to <= |xs|
    ensures (xs + [v])[from..to] == xs[from..to]
  {
  }

  /** A block of the stream, and its end after another value, of which `after` is the last `n`. */
  lemma BlockAndEnd(xs: seq<real>, from: nat, block: seq<real>, end: seq<real>, v: real, n: nat, after: seq<real>)
    requires from + |block| <= |xs| - |end| && block == xs[from..from + |block|] && end == xs[|xs| - |end|..]
    requires |block| == n && after == Last(end + [v], n)
    ensures |after| <= n && from + |block| <= |xs + [v]| - |after|
    ensures block == (xs + [v])[from..from + |block|] && after == (xs + [v])[|xs + [v]| - |after|..]
  {
    SuffixSnoc(xs, |xs| - |end|, v);
    BlockKept(xs, from, from + |block|, v);
    LastOfSuffix(xs + [v], end + [v], n);
  }

  class KsDetector {
    const windowSize: nat
    const pValueThreshold: real
    var reference: seq<real>
    var test: seq<real>
    /** The values since the last reset, and where the reference window starts in them. */
    ghost var stream: seq<real>
    ghost var refStart: nat

    /**
     Both windows are contiguous blocks of the stream, the test window its most recent part and after
     the reference; nothing is tested until the reference is full.
     */
    ghost predicate Valid()
      reads this
    {
      && windowSize >= 1 && |reference| <= windowSize && |test| <= windowSize
      && refStart + |reference| <= |stream| - |test|
      && reference == stream[refStart..refStart + |reference|]
      && test == stream[|stream| - |test|..]
      && (|reference| < windowSize ==> test == [] && refStart == 0 && |reference| == |stream|)
    }

    constructor (windowSize: nat, pValueThreshold: real)
      requires windowSize >= 1
      ensures Valid() && stream == [] && reference == [] && test == []
      ensures this.windowSize == windowSize && this.pValueThreshold == pValueThreshold
    {
      this.windowSize, this.pValueThreshold := windowSize, pValueThreshold;
      reference, test, stream, refStart := [], [], [], 0;
    }

    /** Append to the bounded test window; the oldest value falls out when it is full. */
    method AppendToTest(value: real)
      requires Valid() && |reference| == windowSize
      modifies this`test, this`stream
      ensures Valid() && stream == old(stream) + [value] && test == Last(old(test) + [value], windowSize)
    {
      var after := Last(test + [value], windowSize);
      BlockAndEnd(stream, refStart, reference, test, value, windowSize, after);
      stream := stream + [value];
      test := after;
    }

    method Update(value: real, series: real -> real) returns (drift: bool)
      requires Valid()
      modifies this
      ensures Valid() && stream == old(stream) + [value]
      ensures var newTest := Last(old(test) + [value], windowSize);
              && (drift <==> |old(reference)| == windowSize && |newTest| == windowSize
                             && PValue(KsStatistic(old(reference), newTest), series) < pValueThreshold)
              && (drift ==> reference == newTest && test == [])
              && (|old(reference)| < windowSize ==> reference == old(reference) + [value] && test == [])
              && (!drift && |old(reference)| == windowSize ==> reference == old(reference) && test == newTest)
    {
      if |reference| < windowSize {
        SuffixSnoc(stream, 0, value);
        stream := stream + [value];
        reference := reference + [value];
        assert stream[0..|reference|] == stream;
        return false;
      }
      AppendToTest(value);
      if |test| < windowSize {
        return false;
      }
      var d := KsStatistic(reference, test);
      if PValue(d, series) < pValueThreshold {
        reference := test;
        test := [];
        refStart := |stream| - |reference|;
        return true;
      }
      return false;
    }

    method Reset()
      requires Valid()
      modifies this
      ensures Valid() && stream == []
    {
      reference, test, stream, refStart := [], [], [], 0;
    }
  }

  // ---- Two runs of the KS detector ---------------------------------------------------------------

  lemma LastOfRepeat(v: real, n: nat, i: nat)
    ensures Last(Repeat(v, Min(i, n)) + [v], n) == Repeat(v, Min(i + 1, n))
  {
  }

  /** `n` equal values into a detector that is filling its reference window, or its test window. */
  method Feed(d: KsDetector, v: real, series: real -> real) returns (reports: seq<bool>)
    requires d.Valid() && d.reference == [] && d.test == []
    modifies d
    ensures d.Valid() && d.reference == Repeat(v, d.windowSize) && d.test == []
    ensures |reports| == d.windowSize && forall j :: 0 <= j < d.windowSize ==> !reports[j]
  {
    reports := [];
    for i := 0 to d.windowSize
      invariant d.Valid() && d.reference == Repeat(v, i) && d.test == []
      invariant |reports| == i && forall j :: 0 <= j < i ==> !reports[j]
    {
      RepeatSnoc(v, i);
      var report := d.Update(v, series);
      reports := reports + [report];
    }
  }

  /** `n` equal values into the test window: only the last can be reported, by the p-value of the full windows. */
  method FeedTest(d: KsDetector, v: real, series: real -> real) returns (reports: seq<bool>)
    requires d.Valid() && |d.reference| == d.windowSize && d.test == []
    modifies d
    ensures d.Valid()
    ensures |reports| == d.windowSize && forall i :: 0 <= i < d.windowSize - 1 ==> !reports[i]
    ensures reports[d.windowSize - 1]
       <==> PValue(KsStatistic(old(d.reference), Repeat(v, d.windowSize)), series) < d.pValueThreshold
  {
    reports := [];
    for i := 0 to d.windowSize
      invariant d.Valid() && |reports| == i
      invariant i < d.windowSize ==> d.reference == old(d.reference) && d.test == Repeat(v, i)
      invariant forall j :: 0 <= j < i && j < d.windowSize - 1 ==> !reports[j]
      invariant i == d.windowSize ==>
                  (reports[i - 1]
                   <==> PValue(KsStatistic(old(d.reference), Repeat(v, d.windowSize)), series) < d.pValueThreshold)
    {
      RepeatSnoc(v, i);
      var report := d.Update(v, series);
      reports := reports + [report];
    }
  }

  /** Windows of one value are reported. */
  lemma EqualReported(v: real, n: nat, series: real -> real, threshold: real)
    requires n >= 1 && threshold > 0.0
    ensures PValue(KsStatistic(Repeat(v, n), Repeat(v, n)), series) < threshold
  {
    KsZeroIff(Repeat(v, n), Repeat(v, n));
  }

  /** Windows of two values are not. */
  lemma JumpNotReported(low: real, high: real, n: nat, series: real -> real, threshold: real)
    requires n >= 1 && threshold <= 1.0 && low < high
    ensures !(PValue(KsStatistic(Repeat(low, n), Repeat(high, n)), series) < threshold)
  {
    assert Splits(Repeat(low, n), Repeat(high, n), low);
    KsOneIff(Repeat(low, n), Repeat(high, n));
  }

  /** A constant stream is reported as drift as soon as both windows are full. */
  method ConstantStreamDrifts(n: nat, threshold: real, v: real, series: real -> real) returns (reports: seq<bool>)
    requires n >= 1 && 0.0 < threshold <= 1.0
    ensures |reports| == 2 * n && forall i :: 0 <= i < 2 * n ==> (reports[i] <==> i == 2 * n - 1)
  {
    var d := new KsDetector(n, threshold);
    var filling := Feed(d, v, series);
    EqualReported(v, n, series, threshold);
    var testing := FeedTest(d, v, series);
    reports := filling + testing;
  }

  /**
   A stream that jumps from one value to a higher one as the reference fills is not reported, however many of the
   higher values follow: the test window only ever holds those.
   */
  method JumpGoesUnreported(n: nat, k: nat, threshold: real, low: real, high: real, series: real -> real)
    returns (reports: seq<bool>)
    requires n >= 1 && 0.0 < threshold <= 1.0 && low < high
    ensures |reports| == n + k && forall i :: 0 <= i < n + k ==> !reports[i]
  {
    var d := new KsDetector(n, threshold);
    reports := Feed(d, low, series);
    JumpNotReported(low, high, n, series, threshold);
    for i := 0 to k
      invariant d.Valid() && d.windowSize == n && d.pValueThreshold == threshold
      invariant d.reference == Repeat(low, n) && d.test == Repeat(high, Min(i, n))
      invariant |reports| == n + i && forall j :: 0 <= j < n + i ==> !reports[j]
    {
      LastOfRepeat(high, n, i);
      var report := d.Update(high, series);
      reports := reports + [report];
    }
  }

  // ---- ADWIN ------------------------------------------------------------------------------------

  /** The two sides of position `cut` have means at least `epsilon` apart. */
  predicate Separates(w: seq<real>, cut: nat, epsilon: (nat, nat) -> real)
    requires 0 < cut < |w|
  {
    Abs(Mean(w[..cut]) - Mean(w[cut..])) >= epsilon(cut, |w| - cut)
  }

  /** The distance between tested positions in a window of `n` values. */
  function Stride(n: nat): (k: nat)
    ensures k >= 1
  {
    if n / 20 > 1 then n / 20 else 1
  }

  /** The first of `cut`, `cut + stride`, ... up to `last` at which `p` holds. */
  function FirstWhere(p: nat -> bool, last: int, stride: nat, cut: nat): (r: Option<nat>)
    requires stride >= 1
    ensures r.Some? ==> cut <= r.value <= last && p(r.value)
    decreases last - cut
  {
    if cut > last then None
    else if p(cut) then Some(cut)
    else FirstWhere(p, last, stride, cut + stride)
  }

  /** Whether a position separates the window. */
  function Separator(w: seq<real>, epsilon: (nat, nat) -> real): nat -> bool {
    (cut: nat) => 0 < cut < |w| && Separates(w, cut, epsilon)
  }

  /** The first tested position from `cut` on that separates the window, leaving `margin` values on both sides. */
  function FirstCut(w: seq<real>, margin: nat, epsilon: (nat, nat) -> real, cut: nat): (r: Option<nat>)
    requires 1 <= margin <= cut
    ensures r.Some? ==> cut <= r.value <= |w| - margin && Separates(w, r.value, epsilon)
  {
    FirstWhere(Separator(w, epsilon), |w| - margin, Stride(|w|), cut)
  }

  /** Where a window is cut, if it is. */
  function CutOf(w: seq<real>, margin: nat, epsilon: (nat, nat) -> real): Option<nat>
    requires margin >= 1
  {
    FirstCut(w, margin, epsilon, margin)
  }

  /** What is left of a window. */
  function AfterCut(w: seq<real>, margin: nat, epsilon: (nat, nat) -> real): seq<real>
    requires margin >= 1
  {
    match CutOf(w, margin, epsilon)
    case None => w
    case Some(cut) => w[cut..]
  }

  /** The i-th tested position: `cut + i * stride`, as TestedIs says. */
  function Tested(cut: nat, stride: nat, i: nat): (p: nat)
    ensures p >= cut
    decreases i
  {
    if i == 0 then cut else Tested(cut + stride, stride, i - 1)
  }

  lemma {:induction false} TestedIs(cut: nat, stride: nat, i: nat)
    ensures Tested(cut, stride, i) == cut + i * stride
    decreases i
  {
    if i > 0 {
      TestedIs(cut + stride, stride, i - 1);
    }
  }

  lemma {:induction false} FirstIsFirst(p: nat -> bool, last: int, stride: nat, cut: nat, i: nat)
    requires stride >= 1
    requires var c := FirstWhere(p, last, stride, cut);
             Tested(cut, stride, i) < (if c.Some? then c.value else last + 1)
    ensures !p(Tested(cut, stride, i))
    decreases i
  {
    if i > 0 {
      FirstIsFirst(p, last, stride, cut + stride, i - 1);
    }
  }

  /** No tested position before the cut separates the window; without a cut none at all does. */
  lemma CutIsFirst(w: seq<real>, margin: nat, epsilon: (nat, nat) -> real, cut: nat, i: nat)
    requires 1 <= margin <= cut
    requires var c := FirstCut(w, margin, epsilon, cut);
             Tested(cut, Stride(|w|), i) < (if c.Some? then c.value else |w| - margin + 1)
    ensures 0 < Tested(cut, Stride(|w|), i) < |w|
    ensures !Separates(w, Tested(cut, Stride(|w|), i), epsilon)
  {
    FirstIsFirst(Separator(w, epsilon), |w| - margin, Stride(|w|), cut, i);
  }

  lemma LastSnoc(xs: seq<real>, v: real, n: nat)
    ensures Last(Last(xs, n) + [v], n) == Last(xs + [v], n)
  {
  }

  /** The loop over positions. */
  method Search(p: nat -> bool, last: int, stride: nat, start: nat) returns (found: Option<nat>)
    requires stride >= 1
    ensures found == FirstWhere(p, last, stride, start)
  {
    var cut := start;
    while cut < last + 1
      invariant FirstWhere(p, last, stride, start) == FirstWhere(p, last, stride, cut)
      decreases last - cut
    {
      if p(cut) {
        return Some(cut);
      }
      cut := cut + stride;
    }
    return None;
  }

  class AdwinDetector {
    const minWindow: nat
    const maxWindow: nat
    var window: seq<real>
    var sum: real
    /** The values since the last reset, and where the window began at the last cut. */
    ghost var stream: seq<real>
    ghost var since: nat

    ghost predicate Valid()
      reads this
    {
      && minWindow >= 1 && maxWindow >= 1
      && since <= |stream| && window == Last(stream[since..], maxWindow)
      && sum == Sum(stream[since..])
    }

    /** How many values have come in, counting from the oldest one the last cut left. */
    ghost function Entered(): nat
      reads this
      requires Valid()
    {
      |stream| - since
    }

    constructor (minWindow: nat, maxWindow: nat)
      requires minWindow >= 1 && maxWindow >= 1
      ensures Valid() && stream == []
      ensures this.minWindow == minWindow && this.maxWindow == maxWindow
    {
      this.minWindow, this.maxWindow := minWindow, maxWindow;
      window, sum, stream, since := [], 0.0, [], 0;
    }

    /** Append to the bounded window; the oldest value falls out when it is full. */
    method Append(value: real)
      requires Valid()
      modifies this
      ensures Valid() && stream == old(stream) + [value] && since == old(since)
      ensures window == Last(old(window) + [value], maxWindow)
    {
      SumSnoc(stream[since..], value);
      SuffixSnoc(stream, since, value);
      LastSnoc(stream[since..], value, maxWindow);
      stream := stream + [value];
      sum := sum + value;
      window := Last(window + [value], maxWindow);
    }

    /**
     Append, then cut at the first position where the two sides' means differ by `epsilon` or more.
     The window stays a suffix of the stream; a cut leaves at least `minWindow` values.
     */
    method Update(value: real, epsilon: (nat, nat) -> real) returns (drift: bool)
      requires Valid()
      modifies this
      ensures Valid() && stream == old(stream) + [value]
      ensures var w := Last(old(window) + [value], maxWindow);
              && (drift <==> CutOf(w, minWindow, epsilon).Some?)
              && window == AfterCut(w, minWindow, epsilon)
      ensures if drift then sum == Sum(window) && since == |stream| - |window| else since == old(since)
    {
      Append(value);
      if |window| < minWindow * 2 {
        return false;
      }
      drift := CheckDrift(epsilon);
    }

    /** Forget the first `cut` values and sum up the rest afresh. */
    method DropLeft(cut: nat)
      requires Valid() && cut <= |window|
      modifies this`window, this`sum, this`since
      ensures Valid() && window == old(window)[cut..]
      ensures sum == Sum(window) && since == |stream| - |window|
    {
      window := window[cut..];
      sum := Sum(window);
      since := |stream| - |window|;
      assert window == stream[since..];
    }

    /** The search over cut points. */
    method FindCut(epsilon: (nat, nat) -> real) returns (found: Option<nat>)
      requires minWindow >= 1
      ensures found == CutOf(window, minWindow, epsilon)
    {
      found := Search(Separator(window, epsilon), |window| - minWindow, Stride(|window|), minWindow);
    }

    method CheckDrift(epsilon: (nat, nat) -> real) returns (drift: bool)
      requires Valid() && |window| >= minWindow * 2
      modifies this`window, this`sum, this`since
      ensures Valid()
      ensures drift <==> CutOf(old(window), minWindow, epsilon).Some?
      ensures window == AfterCut(old(window), minWindow, epsilon)
      ensures if drift then sum == Sum(window) && since == |stream| - |window| else since == old(since)
    {
      var cut := FindCut(epsilon);
      if cut.Some? {
        DropLeft(cut.value);
      }
      drift := cut.Some?;
    }

    /**
     The mean as reported. It is the window's whenever the bounded window has dropped nothing since the last
     cut, and for positive values only then; in general, exactly when what was dropped sums to zero.
     */
    method ReportedMean() returns (m: real)
      requires Valid()
      ensures window == [] ==> m == 0.0
      ensures window != [] ==> m == sum / |window| as real
      ensures window != [] ==> (m == Mean(window) <==> Sum(stream[since..|stream| - |window|]) == 0.0)
      ensures window != [] && Entered() <= maxWindow ==> m == Mean(window)
      ensures window != [] && AllPositive(stream) ==>
                (m == Mean(window) <==> Entered() <= maxWindow) && m >= Mean(window)
    {
      if window == [] {
        return 0.0;
      }
      ghost var dropped := stream[since..|stream| - |window|];
      assert stream[since..] == dropped + window;
      assert dropped == [] <==> Entered() <= maxWindow;
      SumConcat(dropped, window);
      DivideOrder(sum, Sum(window), |window| as real);
      if AllPositive(stream) {
        PositiveSum(dropped);
      }
      return sum / |window| as real;
    }
  }

  ghost predicate AllPositive(xs: seq<real>) {
    forall i :: 0 <= i < |xs| ==> xs[i] > 0.0
  }

  lemma {:induction false} PositiveSum(xs: seq<real>)
    requires AllPositive(xs)
    ensures Sum(xs) >= 0.0
    ensures Sum(xs) == 0.0 <==> xs == []
  {
    if xs != [] {
      PositiveSum(xs[..|xs| - 1]);
    }
  }

  /** Equal values have equal means on both sides of every position, so a positive bound never separates them. */
  lemma EqualValuesNotSeparated(v: real, m: nat, c: nat, epsilon: (nat, nat) -> real)
    requires 0 < c < m && epsilon(c, m - c) > 0.0
    ensures !Separates(Repeat(v, m), c, epsilon)
  {
    var w := Repeat(v, m);
    assert w[..c] == Repeat(v, c) && w[c..] == Repeat(v, m - c);
    MeanOfRepeat(v, c);
    MeanOfRepeat(v, m - c);
  }

  lemma EqualValuesNotCut(v: real, m: nat, margin: nat, epsilon: (nat, nat) -> real, cut: nat)
    requires 1 <= margin <= cut && forall a, b :: epsilon(a, b) > 0.0
    ensures FirstCut(Repeat(v, m), margin, epsilon, cut) == None
  {
    forall c | 0 < c < m
      ensures !Separates(Repeat(v, m), c, epsilon)
    {
      EqualValuesNotSeparated(v, m, c, epsilon);
    }
  }

  /** An update by one more of the same value just slides the window. */
  method Slide(d: AdwinDetector, v: real, i: nat, epsilon: (nat, nat) -> real) returns (drift: bool)
    requires d.Valid() && d.window == Repeat(v, Min(i, d.maxWindow)) && forall a, b :: epsilon(a, b) > 0.0
    modifies d
    ensures d.Valid() && !drift && d.stream == old(d.stream) + [v] && d.since == old(d.since)
    ensures d.window == Repeat(v, Min(i + 1, d.maxWindow))
  {
    LastOfRepeat(v, d.maxWindow, i);
    EqualValuesNotCut(v, Min(i + 1, d.maxWindow), d.minWindow, epsilon, d.minWindow);
    drift := d.Update(v, epsilon);
  }

  /**
   Runs that overflow the window of any detector, whatever its least window and its positive bound: `k` equal values
   through a window of at most `n`. Once `k` is more than `n`, the mean reported is above every value there ever
   was, and by as much as `k` exceeds `n`.
   */
  method OverflowMisreportsMean(least: nat, n: nat, k: nat, v: real, epsilon: (nat, nat) -> real)
    returns (window: seq<real>, reported: real, drifted: bool)
    requires 1 <= least && 1 <= n < k && v > 0.0 && forall a, b :: epsilon(a, b) > 0.0
    ensures !drifted && window == Repeat(v, n)
    ensures reported == k as real * v / n as real && reported > Mean(window) == v
  {
    var detector := new AdwinDetector(least, n);
    drifted := false;
    for i := 0 to k
      invariant detector.Valid() && !drifted && detector.maxWindow == n
      invariant detector.stream == Repeat(v, i) && detector.since == 0
      invariant detector.window == Repeat(v, Min(i, n))
    {
      RepeatSnoc(v, i);
      var drift := Slide(detector, v, i, epsilon);
      drifted := drifted || drift;
    }
    window := detector.window;
    SumOfRepeat(v, k);
    MeanOfRepeat(v, n);
    assert detector.stream[0..] == Repeat(v, k);
    reported := detector.ReportedMean();
  }

  // ---- A rise is cut -------------------------------------------------------------------------------

  /** A window with a jump at a tested position is cut if the jump is no less than the bound there. */
  lemma RiseIsCut(low: real, high: real, c: nat, d: nat, margin: nat, epsilon: (nat, nat) -> real, i: nat)
    requires 1 <= margin <= d && c == margin + i * (if (c + d) / 20 > 1 then (c + d) / 20 else 1)
    requires Abs(high - low) >= epsilon(c, d)
    ensures CutOf(Repeat(low, c) + Repeat(high, d), margin, epsilon).Some?
  {
    var w := Repeat(low, c) + Repeat(high, d);
    assert w[..c] == Repeat(low, c) && w[c..] == Repeat(high, d);
    assert c >= margin by {
      TestedIs(margin, Stride(|w|), i);
    }
    MeanOfRepeat(low, c);
    MeanOfRepeat(high, d);
    TestedIs(margin, Stride(|w|), i);
    assert Separates(w, c, epsilon);
    if CutOf(w, margin, epsilon).None? {
      CutIsFirst(w, margin, epsilon, margin, i);
    }
  }

  lemma ShortIsNotCut(w: seq<real>, margin: nat, epsilon: (nat, nat) -> real)
    requires margin >= 1 && |w| < 2 * margin
    ensures CutOf(w, margin, epsilon) == None
  {
  }

  /** `m` equal values into a detector whose window is still short of two minimum windows. */
  method FeedShort(d: AdwinDetector, v: real, m: nat, epsilon: (nat, nat) -> real) returns (reports: seq<bool>)
    requires d.Valid() && |d.window| + m < 2 * d.minWindow <= d.maxWindow
    modifies d
    ensures d.Valid() && d.window == old(d.window) + Repeat(v, m)
    ensures |reports| == m && forall i :: 0 <= i < m ==> !reports[i]
  {
    reports := [];
    assert d.window + Repeat(v, 0) == d.window;
    for i := 0 to m
      invariant d.Valid() && d.window == old(d.window) + Repeat(v, i)
      invariant |reports| == i && forall j :: 0 <= j < i ==> !reports[j]
    {
      RepeatSnoc(v, i);
      ShortIsNotCut(d.window + [v], d.minWindow, epsilon);
      assert Last(d.window + [v], d.maxWindow) == old(d.window) + Repeat(v, i + 1);
      var report := d.Update(v, epsilon);
      reports := reports + [report];
    }
  }

  /** A jump halfway through a window of two minimum windows. */
  lemma HalfwayIsCut(low: real, high: real, m: nat, epsilon: (nat, nat) -> real)
    requires 1 <= m && Abs(high - low) >= epsilon(m, m)
    ensures CutOf(Repeat(low, m) + Repeat(high, m), m, epsilon) == Some(m)
    ensures AfterCut(Repeat(low, m) + Repeat(high, m), m, epsilon) == Repeat(high, m)
  {
    RiseIsCut(low, high, m, m, m, epsilon, 0);
    assert (Repeat(low, m) + Repeat(high, m))[m..] == Repeat(high, m);
  }

  lemma WindowFills(low: real, high: real, m: nat, n: nat)
    requires 1 <= m && 2 * m <= n
    ensures Last(Repeat(low, m) + Repeat(high, m - 1) + [high], n) == Repeat(low, m) + Repeat(high, m)
  {
    RepeatSnoc(high, m - 1);
    assert Repeat(low, m) + Repeat(high, m - 1) + [high] == Repeat(low, m) + Repeat(high, m);
  }

  lemma ReportsJoin(before: seq<bool>, rising: seq<bool>, last: bool, m: nat)
    requires 1 <= m && |before| == m && |rising| == m - 1
    requires (forall i :: 0 <= i < m ==> !before[i]) && (forall i :: 0 <= i < m - 1 ==> !rising[i]) && last
    ensures var all := before + rising + [last];
            |all| == 2 * m && forall i :: 0 <= i < 2 * m ==> (all[i] <==> i == 2 * m - 1)
  {
  }

  /**
   `m` values and then `m` higher or lower ones, into a detector with least window `m`: if the jump is no less than
   the bound it is reported, as soon as it can be.
   */
  method JumpIsReported(m: nat, n: nat, low: real, high: real, epsilon: (nat, nat) -> real)
    returns (reports: seq<bool>, left: seq<real>)
    requires 1 <= m && 2 * m <= n && Abs(high - low) >= epsilon(m, m)
    ensures |reports| == 2 * m && forall i :: 0 <= i < 2 * m ==> (reports[i] <==> i == 2 * m - 1)
    ensures left == Repeat(high, m)
  {
    var d := new AdwinDetector(m, n);
    assert [] + Repeat(low, m) == Repeat(low, m);
    var before := FeedShort(d, low, m, epsilon);
    var rising := FeedShort(d, high, m - 1, epsilon);
    WindowFills(low, high, m, n);
    HalfwayIsCut(low, high, m, epsilon);
    var report := d.Update(high, epsilon);
    ReportsJoin(before, rising, report, m);
    reports, left := before + rising + [report], d.window;
  }
}
