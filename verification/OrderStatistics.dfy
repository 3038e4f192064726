/** Counting, sorting and order statistics of real samples. */
module OrderStatistics {

  /** How many elements are at most `x`. */
  function CountLe(xs: seq<real>, x: real): (n: nat)
    ensures n <= |xs|
  {
    if xs == [] then 0 else (if xs[0] <= x then 1 else 0) + CountLe(xs[1..], x)
  }

  lemma {:induction false} CountLeConcat(a: seq<real>, b: seq<real>, x: real)
    ensures CountLe(a + b, x) == CountLe(a, x) + CountLe(b, x)
  {
    if a == [] {
      assert a + b == b;
    } else {
      assert (a + b)[1..] == a[1..] + b;
      CountLeConcat(a[1..], b, x);
    }
  }

  ghost predicate Ascending(xs: seq<real>) {
    xs != [] ==> (forall y :: y in xs[1..] ==> xs[0] <= y) && Ascending(xs[1..])
  }

  function Insert(x: real, xs: seq<real>): seq<real> {
    if xs == [] || x <= xs[0] then [x] + xs else [xs[0]] + Insert(x, xs[1..])
  }

  function Sort(xs: seq<real>): (r: seq<real>) {
    if xs == [] then [] else Insert(xs[0], Sort(xs[1..]))
  }

  lemma {:induction false} InsertSpec(x: real, xs: seq<real>, b: real)
    requires Ascending(xs)
    ensures Ascending(Insert(x, xs)) && |Insert(x, xs)| == |xs| + 1
    ensures forall y :: y in Insert(x, xs) <==> y == x || y in xs
    ensures CountLe(Insert(x, xs), b) == CountLe(xs, b) + if x <= b then 1 else 0
  {
    if xs == [] || x <= xs[0] {
      assert ([x] + xs)[1..] == xs;
      assert xs != [] ==> xs == [xs[0]] + xs[1..];
    } else {
      InsertSpec(x, xs[1..], b);
      assert Insert(x, xs)[1..] == Insert(x, xs[1..]);
      assert xs == [xs[0]] + xs[1..];
    }
  }

  lemma {:induction false} SortSpec(xs: seq<real>, b: real)
    ensures Ascending(Sort(xs)) && |Sort(xs)| == |xs|
    ensures forall y :: y in Sort(xs) <==> y in xs
    ensures CountLe(Sort(xs), b) == CountLe(xs, b)
  {
    if xs != [] {
      SortSpec(xs[1..], b);
      InsertSpec(xs[0], Sort(xs[1..]), b);
      assert xs == [xs[0]] + xs[1..];
    }
  }

  lemma {:induction false} NoneLe(xs: seq<real>, b: real)
    requires forall i :: 0 <= i < |xs| ==> b < xs[i]
    ensures CountLe(xs, b) == 0
  {
    if xs != [] {
      NoneLe(xs[1..], b);
    }
  }

  lemma {:induction false} SortedCount(xs: seq<real>, k: nat, b: real)
    requires Ascending(xs) && 1 <= k <= |xs|
    ensures xs[k - 1] <= b <==> CountLe(xs, b) >= k
  {
    assert xs == [xs[0]] + xs[1..];
    if b < xs[0] {
      forall i | 0 <= i < |xs| ensures b < xs[i] {
        assert i > 0 ==> xs[i] in xs[1..];
      }
      NoneLe(xs, b);
    } else if k > 1 {
      SortedCount(xs[1..], k - 1, b);
    }
  }

  /** The k-th smallest element. */
  function Kth(xs: seq<real>, k: nat): real
    requires 1 <= k <= |xs|
  {
    SortSpec(xs, 0.0);
    Sort(xs)[k - 1]
  }

  /** The k-th smallest is at most `b` exactly when at least `k` elements are. */
  lemma KthAtMost(xs: seq<real>, k: nat, b: real)
    requires 1 <= k <= |xs|
    ensures Kth(xs, k) <= b <==> CountLe(xs, b) >= k
  {
    SortSpec(xs, b);
    SortedCount(Sort(xs), k, b);
  }

  lemma KthMember(xs: seq<real>, k: nat)
    requires 1 <= k <= |xs|
    ensures Kth(xs, k) in xs
  {
    SortSpec(xs, 0.0);
    assert Sort(xs)[k - 1] in Sort(xs);
  }

  lemma KthMonotone(xs: seq<real>, j: nat, k: nat)
    requires 1 <= j <= k <= |xs|
    ensures Kth(xs, j) <= Kth(xs, k)
  {
    KthAtMost(xs, k, Kth(xs, k));
    KthAtMost(xs, j, Kth(xs, k));
  }
}
