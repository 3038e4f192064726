/**
 Ensemble weights: inverse mean error, normalised, clamped, renormalised, clamped and
 renormalised again. Weights of the models are kept in the order of the model names.
 Floats are reals.
 */
module EnsembleWeights {
  import opened Sums

  const MODEL_NAMES: seq<string> := ["linear", "prophet", "xgboost"]

  datatype Config = Config(minWeight: real, maxWeight: real)

  /** What the configuration schema allows. */
  ghost predicate ValidConfig(c: Config) {
    0.0 <= c.minWeight <= 0.5 && 0.3 <= c.maxWeight <= 1.0
  }

  const DEFAULTS: Config := Config(0.1, 0.6)

  // ---- The computation on values -----------------------------------------------------

  function Clamp(c: Config, x: real): real {
    var low := if x < c.maxWeight then x else c.maxWeight;
    if low > c.minWeight then low else c.minWeight
  }

  function ClampAll(c: Config, xs: seq<real>): (r: seq<real>)
    ensures |r| == |xs|
    ensures forall i :: 0 <= i < |xs| ==> r[i] == Clamp(c, xs[i])
  {
    seq(|xs|, i requires 0 <= i < |xs| => Clamp(c, xs[i]))
  }

  function Divide(xs: seq<real>, t: real): (r: seq<real>)
    requires t != 0.0
    ensures |r| == |xs|
    ensures forall i :: 0 <= i < |xs| ==> r[i] == xs[i] / t
  {
    seq(|xs|, i requires 0 <= i < |xs| => xs[i] / t)
  }

  ghost predicate Positive(xs: seq<real>) {
    xs != [] && forall i :: 0 <= i < |xs| ==> xs[i] > 0.0
  }

  lemma {:induction false} SumPositive(xs: seq<real>)
    requires Positive(xs)
    ensures Sum(xs) > 0.0
  {
    if |xs| > 1 {
      SumPositive(xs[..|xs| - 1]);
    } else {
      assert xs[..0] == [];
    }
  }

  /** Shares of the total. */
  function Normalise(xs: seq<real>): (r: seq<real>)
    requires Positive(xs)
    ensures |r| == |xs|
  {
    SumPositive(xs);
    Divide(xs, Sum(xs))
  }

  /** A rolling mean error of at least 0.01, inverted; 1 for a model without history. */
  function InverseError(history: seq<real>): (v: real)
    ensures v > 0.0
  {
    if history == [] then 1.0
    else
      var avg := Sum(history) / |history| as real;
      1.0 / if avg > 0.01 then avg else 0.01
  }

  function InverseErrors(histories: seq<seq<real>>): (r: seq<real>)
    ensures |r| == |histories|
    ensures forall i :: 0 <= i < |r| ==> r[i] == InverseError(histories[i])
  {
    seq(|histories|, i requires 0 <= i < |histories| => InverseError(histories[i]))
  }

  lemma DivPositive(x: real, t: real)
    requires x > 0.0 && t > 0.0
    ensures x / t > 0.0
  {
  }

  lemma NormalisePositive(xs: seq<real>)
    requires Positive(xs)
    ensures Positive(Normalise(xs))
  {
    SumPositive(xs);
    forall i | 0 <= i < |xs| ensures Normalise(xs)[i] > 0.0 {
      DivPositive(xs[i], Sum(xs));
    }
  }

  /** Clamp, then renormalise. */
  function Round(c: Config, xs: seq<real>): (r: seq<real>)
    requires ValidConfig(c) && Positive(xs)
    ensures |r| == |xs|
  {
    Normalise(ClampAll(c, xs))
  }

  function Weights(c: Config, inverse: seq<real>): (r: seq<real>)
    requires ValidConfig(c) && Positive(inverse)
    ensures |r| == |inverse|
  {
    NormalisePositive(inverse);
    var shares := Normalise(inverse);
    NormalisePositive(ClampAll(c, shares));
    Round(c, Round(c, shares))
  }

  // ---- The object --------------------------------------------------------------------------

  class Ensemble {
    const config: Config
    var history: seq<seq<real>>
    var weights: seq<real>

    ghost predicate Valid()
      reads this
    {
      ValidConfig(config) && |history| == |MODEL_NAMES| && |weights| == |MODEL_NAMES|
    }

    constructor (config: Config, defaults: seq<real>)
      requires ValidConfig(config) && |defaults| == |MODEL_NAMES|
      ensures Valid() && weights == defaults && history == [[], [], []]
    {
      this.config := config;
      history, weights := [[], [], []], defaults;
    }

    /** Clamp every weight in place. */
    method ClampWeights()
      requires Valid()
      modifies this`weights
      ensures Valid() && weights == ClampAll(config, old(weights))
    {
      for i := 0 to |MODEL_NAMES|
        invariant Valid()
        invariant forall k :: 0 <= k < i ==> weights[k] == Clamp(config, old(weights)[k])
        invariant forall k :: i <= k < |weights| ==> weights[k] == old(weights)[k]
      {
        weights := weights[i := Clamp(config, weights[i])];
      }
    }

    /** Divide every weight by the total. */
    method RenormaliseWeights()
      requires Valid() && Positive(weights)
      modifies this`weights
      ensures Valid() && Positive(weights) && weights == Normalise(old(weights))
    {
      NormalisePositive(weights);
      SumPositive(weights);
      var total := Sum(weights);
      weights := Divide(weights, total);
    }

    method UpdateWeights()
      requires Valid()
      modifies this`weights
      ensures Valid()
      ensures Positive(InverseErrors(history)) && weights == Weights(config, InverseErrors(history))
    {
      var inverse: seq<real> := [];
      for i := 0 to |MODEL_NAMES|
        invariant |inverse| == i
        invariant forall k :: 0 <= k < i ==> inverse[k] == InverseError(history[k])
      {
        inverse := inverse + [InverseError(history[i])];
      }
      assert inverse == InverseErrors(history);
      weights := inverse;
      RenormaliseWeights();
      ClampWeights();
      RenormaliseWeights();
      ClampWeights();
      RenormaliseWeights();
    }
  }

  // ---- Sums ------------------------------------------------------------------------------------

  lemma DivideSum(a: real, b: real, t: real)
    requires t != 0.0
    ensures (a + b) / t == a / t + b / t
  {
  }

  lemma {:induction false} SumOfDivided(xs: seq<real>, t: real)
    requires t != 0.0
    ensures Sum(Divide(xs, t)) == Sum(xs) / t
  {
    if xs != [] {
      var n := |xs| - 1;
      SumOfDivided(xs[..n], t);
      assert Divide(xs, t)[..n] == Divide(xs[..n], t);
      DivideSum(Sum(xs[..n]), xs[n], t);
    }
  }

  lemma NormaliseSum(xs: seq<real>)
    requires Positive(xs)
    ensures Sum(Normalise(xs)) == 1.0
  {
    SumPositive(xs);
    var total := Sum(xs);
    SumOfDivided(xs, total);
    assert total / total == 1.0;
  }

  lemma {:induction false} SumMonotone(xs: seq<real>, ys: seq<real>)
    requires |xs| == |ys| && forall i :: 0 <= i < |xs| ==> xs[i] <= ys[i]
    ensures Sum(xs) <= Sum(ys)
    ensures (exists i :: 0 <= i < |xs| && xs[i] < ys[i]) ==> Sum(xs) < Sum(ys)
  {
    if xs != [] {
      var n := |xs| - 1;
      SumMonotone(xs[..n], ys[..n]);
      if i :| 0 <= i < |xs| && xs[i] < ys[i] && i < n {
        assert xs[..n][i] < ys[..n][i];
      }
    }
  }

  // ---- Positive, summing to one, order kept ----------------------------------------------------------

  ghost predicate KeepsOrder(xs: seq<real>, ys: seq<real>) {
    |xs| == |ys| && forall i, j :: 0 <= i < |xs| && 0 <= j < |xs| && xs[i] <= xs[j] ==> ys[i] <= ys[j]
  }

  lemma NormaliseKeepsOrder(xs: seq<real>)
    requires Positive(xs)
    ensures KeepsOrder(xs, Normalise(xs))
  {
    SumPositive(xs);
    forall i, j | 0 <= i < |xs| && 0 <= j < |xs| && xs[i] <= xs[j]
      ensures Normalise(xs)[i] <= Normalise(xs)[j]
    {
      DivideOrder(xs[i], xs[j], Sum(xs));
    }
  }

  lemma RoundKeepsOrder(c: Config, xs: seq<real>)
    requires ValidConfig(c) && Positive(xs)
    ensures Positive(Round(c, xs)) && Sum(Round(c, xs)) == 1.0 && KeepsOrder(xs, Round(c, xs))
  {
    var z := ClampAll(c, xs);
    NormalisePositive(z);
    NormaliseSum(z);
    NormaliseKeepsOrder(z);
    assert KeepsOrder(xs, z);
  }

  /**
   For any number of models and any allowed bounds: the weights are positive, sum to one, and a
   model with no larger inverse error never gets a larger weight.
   */
  lemma WeightsAreShares(c: Config, inverse: seq<real>)
    requires ValidConfig(c) && Positive(inverse)
    ensures Positive(Weights(c, inverse)) && Sum(Weights(c, inverse)) == 1.0
    ensures KeepsOrder(inverse, Weights(c, inverse))
  {
    NormalisePositive(inverse);
    NormaliseKeepsOrder(inverse);
    RoundKeepsOrder(c, Normalise(inverse));
    RoundKeepsOrder(c, Round(c, Normalise(inverse)));
  }

  // ---- When the weights respect the bounds --------------------------------------------------------------

  ghost predicate WithinBounds(c: Config, xs: seq<real>) {
    forall i :: 0 <= i < |xs| ==> c.minWeight <= xs[i] <= c.maxWeight
  }

  lemma DivideByLess(x: real, t: real)
    requires x > 0.0 && t > 0.0
    ensures t < 1.0 ==> x / t > x
    ensures t > 1.0 ==> x / t < x
    ensures t == 1.0 ==> x / t == x
  {
    var y, u := x / t, t - 1.0;
    DivPositive(x, t);
    assert y * t == x && y * t == y * u + y;
    if u > 0.0 {
      ProductPositive(y, u);
    } else if u < 0.0 {
      ProductPositive(y, 0.0 - u);
      assert y * (0.0 - u) == 0.0 - y * u;
    }
  }

  lemma ProductPositive(a: real, b: real)
    requires a > 0.0 && b > 0.0
    ensures a * b > 0.0
  {
  }

  /** A clamp that lowers the total lowers some share to the maximum. */
  lemma ClampLowers(c: Config, r: seq<real>) returns (i: nat)
    requires c.minWeight <= c.maxWeight && Sum(ClampAll(c, r)) < Sum(r)
    ensures i < |r| && ClampAll(c, r)[i] == c.maxWeight < r[i]
  {
    var z := ClampAll(c, r);
    if forall k :: 0 <= k < |r| ==> r[k] <= z[k] {
      SumMonotone(r, z);
    }
    i :| 0 <= i < |r| && z[i] < r[i];
  }

  lemma ClampRaises(c: Config, r: seq<real>) returns (i: nat)
    requires c.minWeight <= c.maxWeight && Sum(ClampAll(c, r)) > Sum(r)
    ensures i < |r| && ClampAll(c, r)[i] == c.minWeight > r[i]
  {
    var z := ClampAll(c, r);
    if forall k :: 0 <= k < |r| ==> z[k] <= r[k] {
      SumMonotone(z, r);
    }
    i :| 0 <= i < |r| && z[i] > r[i];
  }

  /** The first clamp took something off: the last renormalisation pushes a weight above the maximum. */
  lemma EndsAboveMaximum(c: Config, r: seq<real>)
    requires ValidConfig(c) && c.minWeight <= c.maxWeight && Positive(r) && Sum(r) == 1.0
    requires Sum(ClampAll(c, r)) < 1.0
    ensures Positive(Round(c, r)) && !WithinBounds(c, Round(c, Round(c, r)))
  {
    RoundKeepsOrder(c, r);
    var s := ClampAll(c, r);
    var i := ClampLowers(c, r);
    SumPositive(s);
    var y := Round(c, r);
    var z := ClampAll(c, y);
    forall k | 0 <= k < |y| ensures z[k] <= y[k] {
      DivideByLess(s[k], Sum(s));
    }
    DivideByLess(s[i], Sum(s));
    assert z[i] == c.maxWeight < y[i];
    SumMonotone(z, y);
    SumPositive(z);
    DivideByLess(z[i], Sum(z));
    assert Round(c, y)[i] > c.maxWeight;
  }

  /** The first clamp added something: the last renormalisation pushes a weight below the minimum. */
  lemma EndsBelowMinimum(c: Config, r: seq<real>)
    requires ValidConfig(c) && c.minWeight <= c.maxWeight && Positive(r) && Sum(r) == 1.0
    requires Sum(ClampAll(c, r)) > 1.0
    ensures Positive(Round(c, r)) && !WithinBounds(c, Round(c, Round(c, r)))
  {
    RoundKeepsOrder(c, r);
    var s := ClampAll(c, r);
    var i := ClampRaises(c, r);
    SumPositive(s);
    var y := Round(c, r);
    var z := ClampAll(c, y);
    forall k | 0 <= k < |y| ensures y[k] <= z[k] {
      DivideByLess(s[k], Sum(s));
    }
    DivideByLess(s[i], Sum(s));
    assert z[i] == c.minWeight > y[i];
    SumMonotone(y, z);
    SumPositive(z);
    DivideByLess(z[i], Sum(z));
    assert Round(c, y)[i] < c.minWeight;
  }

  lemma DivideByOne(xs: seq<real>)
    ensures Divide(xs, 1.0) == xs
  {
  }

  /**
   The class comment promises weights inside [minWeight, maxWeight]. That holds exactly when the configured range is
   one and the first clamp leaves the total of the shares at one; otherwise the last renormalisation breaks it.
   */
  lemma WeightsWithinBoundsIff(c: Config, inverse: seq<real>)
    requires ValidConfig(c) && Positive(inverse)
    ensures WithinBounds(c, Weights(c, inverse))
       <==> c.minWeight <= c.maxWeight && Sum(ClampAll(c, Normalise(inverse))) == 1.0
  {
    NormalisePositive(inverse);
    NormaliseSum(inverse);
    var r := Normalise(inverse);
    var s := ClampAll(c, r);
    if c.minWeight > c.maxWeight {
      assert !(c.minWeight <= Weights(c, inverse)[0] <= c.maxWeight);
    } else if Sum(s) < 1.0 {
      EndsAboveMaximum(c, r);
    } else if Sum(s) > 1.0 {
      EndsBelowMinimum(c, r);
    } else {
      DivideByOne(s);
      assert Round(c, r) == s && ClampAll(c, s) == s;
    }
  }

  // ---- What the numbers are -------------------------------------------------------------------------------------

  /** The inverse of the mean error, which counts as 0.01 at least; and 1 without any errors. */
  lemma InverseErrorIs(history: seq<real>)
    ensures history == [] ==> InverseError(history) == 1.0
    ensures history != [] && Sum(history) > 0.01 * |history| as real ==>
              InverseError(history) * Sum(history) == |history| as real
    ensures history != [] && Sum(history) <= 0.01 * |history| as real ==> InverseError(history) == 100.0
  {
    if history != [] {
      MeanError(Sum(history), |history| as real);
    }
  }

  lemma MeanError(s: real, n: real)
    requires n > 0.0
    ensures s / n > 0.01 <==> s > 0.01 * n
    ensures s > 0.01 * n ==> 1.0 / (s / n) * s == n
  {
    var avg := s / n;
    assert avg * n == s;
    assert avg > 0.01 ==> (avg - 0.01) * n > 0.0;
    assert avg <= 0.01 ==> (0.01 - avg) * n >= 0.0;
    if s > 0.01 * n {
      assert 1.0 / avg * avg == 1.0;
      assert 1.0 / avg * (avg * n) == 1.0 / avg * avg * n;
    }
  }

  /** A clamp and renormalisation leave shares that are within the range already. */
  lemma RoundKeeps(c: Config, r: seq<real>)
    requires ValidConfig(c) && Positive(r) && Sum(r) == 1.0 && WithinBounds(c, r)
    ensures Round(c, r) == r
  {
    assert ClampAll(c, r) == r;
    DivideByOne(r);
  }

  /** `x` is a share of the total `t` within the range. */
  ghost predicate ShareWithin(c: Config, x: real, t: real) {
    c.minWeight * t <= x <= c.maxWeight * t
  }

  ghost predicate AllWithin(c: Config, xs: seq<real>) {
    forall i :: 0 <= i < |xs| ==> ShareWithin(c, xs[i], Sum(xs))
  }

  lemma ShareIsWithin(c: Config, x: real, t: real)
    requires t > 0.0 && ShareWithin(c, x, t)
    ensures c.minWeight <= x / t <= c.maxWeight
  {
    DivideBetween(x, t, c.minWeight, c.maxWeight);
  }

  lemma NormaliseWithin(c: Config, xs: seq<real>)
    requires Positive(xs) && AllWithin(c, xs)
    ensures WithinBounds(c, Normalise(xs))
  {
    SumPositive(xs);
    forall i | 0 <= i < |xs|
      ensures c.minWeight <= Normalise(xs)[i] <= c.maxWeight
    {
      ShareIsWithin(c, xs[i], Sum(xs));
    }
  }

  lemma InProportion(x: real, y: real, t: real, u: real, v: real)
    requires t != 0.0 && u == x / t && v == y / t
    ensures u * y == v * x
  {
    assert u * t == x && v * t == y;
    assert u * (v * t) == v * (u * t);
  }

  lemma DivideInProportion(xs: seq<real>, t: real, i: nat, j: nat)
    requires t != 0.0 && i < |xs| && j < |xs|
    ensures Divide(xs, t)[i] * xs[j] == Divide(xs, t)[j] * xs[i]
  {
    InProportion(xs[i], xs[j], t, Divide(xs, t)[i], Divide(xs, t)[j]);
  }

  /** Shares are in proportion to what they are shares of. */
  lemma NormaliseInProportion(xs: seq<real>, i: nat, j: nat)
    requires Positive(xs) && i < |xs| && j < |xs|
    ensures Normalise(xs)[i] * xs[j] == Normalise(xs)[j] * xs[i]
  {
    SumPositive(xs);
    DivideInProportion(xs, Sum(xs), i, j);
  }

  /** Where every share is within the range, the weights are the shares of the inverse errors. */
  lemma UnclampedWeights(c: Config, inverse: seq<real>)
    requires ValidConfig(c) && Positive(inverse) && AllWithin(c, inverse)
    ensures Weights(c, inverse) == Normalise(inverse)
  {
    NormalisePositive(inverse);
    NormaliseSum(inverse);
    NormaliseWithin(c, inverse);
    RoundKeeps(c, Normalise(inverse));
  }

  // ---- Three models, default bounds -------------------------------------------------------------------------

  lemma SumOfThree(xs: seq<real>)
    requires |xs| == 3
    ensures Sum(xs) == xs[0] + xs[1] + xs[2]
  {
    assert xs[..2][..1] == xs[..1] && xs[..1][..0] == [];
    assert Sum(xs[..1]) == xs[0] && Sum(xs[..2]) == xs[0] + xs[1];
  }

  /** Three positive shares of one, clamped, total between 0.8 and 1.1. */
  lemma FirstTotal(r: seq<real>)
    requires |r| == 3 && Positive(r) && Sum(r) == 1.0
    ensures 0.8 <= Sum(ClampAll(DEFAULTS, r)) < 1.1
  {
    SumOfThree(r);
    SumOfThree(ClampAll(DEFAULTS, r));
  }

  lemma DivideBetween(x: real, t: real, lo: real, hi: real)
    requires t > 0.0 && lo * t <= x <= hi * t
    ensures lo <= x / t <= hi
    ensures lo * t < x ==> lo < x / t
  {
    var y := x / t;
    assert y * t == x;
    assert y < lo ==> (lo - y) * t > 0.0;
    assert y <= lo ==> (lo - y) * t >= 0.0;
    assert y > hi ==> (y - hi) * t > 0.0;
  }

  /** The second clamp cuts one share above 0.6 or lifts one share below 0.1, never both. */
  lemma SecondClamp(y: seq<real>)
    requires |y| == 3 && Sum(y) == 1.0
    requires forall k :: 0 <= k < 3 ==> 1.0 / 11.0 < y[k] <= 0.75
    requires (forall k :: 0 <= k < 3 ==> y[k] >= 0.1) || (forall k :: 0 <= k < 3 ==> y[k] <= 0.6)
    ensures var z := ClampAll(DEFAULTS, y);
            && Sum(z) > 0.0
            && forall k :: 0 <= k < 3 ==> 11.0 / 111.0 * Sum(z) < z[k] <= 12.0 / 17.0 * Sum(z)
  {
    SumOfThree(y);
    SumOfThree(ClampAll(DEFAULTS, y));
  }

  lemma FirstRound(r: seq<real>)
    requires |r| == 3 && Positive(r) && Sum(r) == 1.0
    ensures var y := Round(DEFAULTS, r);
            && (forall k :: 0 <= k < 3 ==> 1.0 / 11.0 < y[k] <= 0.75)
            && ((forall k :: 0 <= k < 3 ==> y[k] >= 0.1) || (forall k :: 0 <= k < 3 ==> y[k] <= 0.6))
  {
    FirstTotal(r);
    var s := ClampAll(DEFAULTS, r);
    SumPositive(s);
    var t := Sum(s);
    forall k | 0 <= k < 3
      ensures 1.0 / 11.0 < s[k] / t <= 0.75
      ensures t <= 1.0 ==> s[k] / t >= 0.1
      ensures t >= 1.0 ==> s[k] / t <= 0.6
    {
      DivideBetween(s[k], t, 1.0 / 11.0, 0.75);
      DivideByLess(s[k], t);
    }
  }

  lemma SecondRound(y: seq<real>)
    requires |y| == 3 && Positive(y) && Sum(y) == 1.0
    requires forall k :: 0 <= k < 3 ==> 1.0 / 11.0 < y[k] <= 0.75
    requires (forall k :: 0 <= k < 3 ==> y[k] >= 0.1) || (forall k :: 0 <= k < 3 ==> y[k] <= 0.6)
    ensures forall k :: 0 <= k < 3 ==> 11.0 / 111.0 < Round(DEFAULTS, y)[k] <= 12.0 / 17.0
  {
    var z := ClampAll(DEFAULTS, y);
    SecondClamp(y);
    forall k | 0 <= k < 3
      ensures 11.0 / 111.0 < z[k] / Sum(z) <= 12.0 / 17.0
    {
      DivideBetween(z[k], Sum(z), 11.0 / 111.0, 12.0 / 17.0);
    }
  }

  /**
   With three models and the default bounds 0.1 and 0.6, every final weight lies in (11/111, 12/17]:
   the last renormalisation can leave the clamp range, but by no more than that.
   */
  lemma ThreeModelBounds(inverse: seq<real>)
    requires |inverse| == 3 && Positive(inverse)
    ensures forall k :: 0 <= k < 3 ==> 11.0 / 111.0 < Weights(DEFAULTS, inverse)[k] <= 12.0 / 17.0
  {
    NormalisePositive(inverse);
    NormaliseSum(inverse);
    var r := Normalise(inverse);
    FirstRound(r);
    RoundKeepsOrder(DEFAULTS, r);
    SecondRound(Round(DEFAULTS, r));
  }

  /** The upper end is reached: one model with error 0.01 against two with error 100. */
  lemma UpperBoundReached()
    ensures var inverse := InverseErrors([[0.01], [100.0], [100.0]]);
            Positive(inverse) && Weights(DEFAULTS, inverse)[0] == 12.0 / 17.0
  {
    assert Sum([0.01]) == 0.01 && Sum([100.0]) == 100.0 by {
      assert [0.01][..0] == [] && [100.0][..0] == [];
    }
    var inverse := InverseErrors([[0.01], [100.0], [100.0]]);
    assert inverse == [100.0, 0.01, 0.01];
    SumOfThree(inverse);
    var s := ClampAll(DEFAULTS, Normalise(inverse));
    assert s == [0.6, 0.1, 0.1];
    SumOfThree(s);
    assert Normalise(s) == [0.75, 0.125, 0.125];
    var z := ClampAll(DEFAULTS, Normalise(s));
    assert z == [0.6, 0.125, 0.125];
    SumOfThree(z);
  }
}
