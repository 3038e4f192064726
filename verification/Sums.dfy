/** Sums of real sequences, and the order of quotients. */
module Sums {

  function Sum(xs: seq<real>): real {
    if xs == [] then 0.0 else Sum(xs[..|xs| - 1]) + xs[|xs| - 1]
  }

  lemma {:induction false} SumConcat(a: seq<real>, b: seq<real>)
    ensures Sum(a + b) == Sum(a) + Sum(b)
  {
    if b == [] {
      assert a + b == a;
    } else {
      var n := |b| - 1;
      SumConcat(a, b[..n]);
      assert (a + b)[..|a + b| - 1] == a + b[..n];
    }
  }

  /** Dividing by something positive keeps the order. */
  lemma DivideOrder(a: real, b: real, t: real)
    requires t > 0.0
    ensures a == b <==> a / t == b / t
    ensures a < b <==> a / t < b / t
  {
    var x, y := a / t, b / t;
    assert x * t == a && y * t == b;
    assert x < y ==> (y - x) * t > 0.0;
    assert y < x ==> (x - y) * t > 0.0;
  }
}
