/**
 Gap filling and downsampling of a time series, in exact arithmetic. The two parallel lists
 of the source are one list of points.
 */
module TimeSeries {
  import opened Basics
  import opened Sums
  import opened Weaving

  datatype Point = Point(ts: int, value: real)

  const FILL_CAP: nat := 10000

  /** int(x): towards zero. */
  function Trunc(x: real): int {
    if x >= 0.0 then x.Floor else 0 - (0.0 - x).Floor
  }

  function GapAt(xs: seq<Point>, k: int): int
    requires 0 <= k < |xs| - 1
  {
    xs[k + 1].ts - xs[k].ts
  }

  // ---- Filling, on values --------------------------------------------------------------

  /** How many points go into a gap. */
  function FillCount(gap: int, interval: int): nat
    requires interval >= 1
  {
    if gap as real > interval as real * 1.5 then
      QuotientFloor(gap, interval);
      Min((gap as real / interval as real).Floor - 1, FILL_CAP)
    else 0
  }

  /** The j-th of `n` points inserted between `a` and `b`. */
  function Interpolated(a: Point, b: Point, n: int, j: int): Point
    requires n >= 0
  {
    var frac := j as real / (n + 1) as real;
    Point(Trunc(a.ts as real + frac * (b.ts - a.ts) as real), a.value + frac * (b.value - a.value))
  }

  function Segment(a: Point, b: Point, interval: int): (s: seq<Point>)
    requires interval >= 1
    ensures |s| == FillCount(b.ts - a.ts, interval)
    ensures forall j :: 0 <= j < |s| ==> s[j] == Interpolated(a, b, |s|, j + 1)
  {
    var n := FillCount(b.ts - a.ts, interval);
    seq(n, j requires 0 <= j < n => Interpolated(a, b, n, j + 1))
  }

  /** Nothing is put into a gap when the interval is not positive. */
  function Inserter(interval: int): (Point, Point) -> seq<Point> {
    (a: Point, b: Point) => if interval >= 1 then Segment(a, b, interval) else []
  }

  function Fill(ps: seq<Point>, interval: int): seq<Point> {
    Weave(ps, Inserter(interval))
  }

  /** An interval of zero between two points that ascend divides by zero. */
  predicate Fails(a: Point, b: Point, interval: int) {
    interval == 0 && a.ts < b.ts
  }

  // ---- Filling, as the nested loops ------------------------------------------------------

  /** The points that go into one gap; None when the quotient fails. */
  method FillGap(a: Point, b: Point, interval: int) returns (segment: Option<seq<Point>>)
    ensures segment == if Fails(a, b, interval) then None else Some(Inserter(interval)(a, b))
  {
    var points: seq<Point> := [];
    var gap := b.ts - a.ts;
    if gap as real > interval as real * 1.5 {
      if interval == 0 {
        return None;
      }
      var nFill := Trunc(gap as real / interval as real) - 1;
      nFill := Min(nFill, FILL_CAP);
      NFillIs(gap, interval);
      for j := 1 to Max(nFill, 0) + 1
        invariant |points| == j - 1
        invariant forall k :: 0 <= k < |points| ==> points[k] == Interpolated(a, b, nFill, k + 1)
      {
        points := points + [Interpolated(a, b, nFill, j)];
      }
    }
    assert interval >= 1 ==> points == Segment(a, b, interval);
    return Some(points);
  }

  method FillGaps(ps: seq<Point>, interval: int) returns (filled: Option<seq<Point>>)
    ensures (exists i :: 0 <= i < |ps| - 1 && Fails(ps[i], ps[i + 1], interval)) ==> filled == None
    ensures (forall i :: 0 <= i < |ps| - 1 ==> !Fails(ps[i], ps[i + 1], interval)) ==>
              filled == Some(Fill(ps, interval))
  {
    if |ps| < 2 {
      return Some(ps);
    }
    var points := [];
    assert ps[0..] == ps;
    for i := 0 to |ps|
      invariant forall k :: 0 <= k < i && k < |ps| - 1 ==> !Fails(ps[k], ps[k + 1], interval)
      invariant points + Weave(ps[i..], Inserter(interval)) == Fill(ps, interval)
    {
      Step(points, ps, i, Inserter(interval));
      points := points + [ps[i]];
      if i < |ps| - 1 {
        var segment := FillGap(ps[i], ps[i + 1], interval);
        if segment.None? {
          return None;
        }
        points := points + segment.value;
      }
    }
    assert ps[|ps|..] == [] && points + [] == points;
    return Some(points);
  }

  /** What the source computes for a gap it finds too wide: the count, or nothing above zero for a negative interval. */
  lemma NFillIs(gap: int, interval: int)
    requires interval != 0 && gap as real > interval as real * 1.5
    ensures var n := Min(Trunc(gap as real / interval as real) - 1, FILL_CAP);
            if interval >= 1 then n == FillCount(gap, interval) else n <= 0
  {
    var x, q := gap as real / interval as real, interval as real;
    assert x * q == gap as real;
    if interval >= 1 {
      QuotientFloor(gap, interval);
      assert x < 0.0 ==> (0.0 - x) * q > 0.0;
    } else {
      assert x >= 1.5 ==> (x - 1.5) * (0.0 - q) >= 0.0;
      assert x < 1.5;
    }
  }

  /** Without a positive interval the series stays as it is. */
  lemma NoIntervalKeepsSeries(ps: seq<Point>, interval: int)
    requires interval <= 0
    ensures Fill(ps, interval) == ps
  {
    UnchangedIff(ps, Inserter(interval));
  }

  // ---- Real quotients and integer division -------------------------------------------------

  lemma FloorIs(x: real, k: int)
    requires k as real <= x < k as real + 1.0
    ensures x.Floor == k
  {
  }

  lemma RealProduct(a: int, b: int)
    ensures (a * b) as real == a as real * b as real
  {
  }

  lemma CancelReal(q: real, x: real, y: real)
    requires q > 0.0
    ensures x * q < y * q ==> x < y
    ensures x * q <= y * q ==> x <= y
  {
    assert x >= y ==> (x - y) * q >= 0.0;
    assert x > y ==> (x - y) * q > 0.0;
  }

  lemma QuotientBounds(g: real, q: real, lo: real, hi: real)
    requires q > 0.0 && lo * q <= g < hi * q
    ensures lo <= g / q < hi
  {
    assert g / q * q == g;
    CancelReal(q, lo, g / q);
    CancelReal(q, g / q, hi);
  }

  lemma QuotientFloor(g: int, q: int)
    requires q >= 1
    ensures (g as real / q as real).Floor == g / q
  {
    var k := g / q;
    assert k * q <= g < (k + 1) * q;
    RealProduct(k, q);
    RealProduct(k + 1, q);
    QuotientBounds(g as real, q as real, k as real, (k + 1) as real);
    FloorIs(g as real / q as real, k);
  }

  /** Multiplying by something not negative keeps the order. */
  lemma TimesKeepsOrder(a: int, b: int, c: int)
    requires a <= b && c >= 0
    ensures a * c <= b * c && c * a <= c * b
  {
    assert (b - a) * c >= 0;
  }

  lemma FractionFloor(j: int, q: int, g: int)
    requires q >= 1
    ensures (j as real / q as real * g as real).Floor == j * g / q
  {
    var x := j as real * g as real;
    RealProduct(j, g);
    FractionProduct(j as real, q as real, g as real);
    assert j as real / q as real * g as real == x / q as real;
    QuotientFloor(j * g, q);
    assert (j * g) as real == x;
  }

  lemma FractionProduct(j: real, q: real, g: real)
    requires q > 0.0
    ensures j / q * g == j * g / q
  {
    var x := j / q;
    assert x * q == j;
    assert x * g * q == j * g;
  }

  /** For a Unix timestamp, an inserted point is a whole number of seconds after the left neighbour. */
  lemma InterpolatedTs(a: Point, b: Point, n: int, j: int)
    requires a.ts >= 0 && b.ts >= a.ts && n >= 0 && 0 <= j <= n + 1
    ensures Interpolated(a, b, n, j).ts == a.ts + j * (b.ts - a.ts) / (n + 1)
  {
    var g, q := b.ts - a.ts, n + 1;
    FractionFloor(j, q, g);
    FractionNotNegative(j as real, q as real, g as real);
    TruncOffset(a.ts, j as real / q as real * g as real);
  }

  lemma FractionNotNegative(j: real, q: real, g: real)
    requires j >= 0.0 && q > 0.0 && g >= 0.0
    ensures j / q * g >= 0.0
  {
    var x := j / q;
    assert x * q == j;
    assert x < 0.0 ==> (0.0 - x) * q > 0.0;
  }

  lemma TruncOffset(ts: int, x: real)
    requires ts >= 0 && x >= 0.0
    ensures Trunc(ts as real + x) == ts + x.Floor
  {
    FloorIs(ts as real + x, ts + x.Floor);
  }

  // ---- Steps inside one gap --------------------------------------------------------------------

  /** One step of a gap of `g` seconds divided in `q`. */
  function StepSize(g: int, q: int, j: int): int
    requires q >= 1
  {
    (j + 1) * g / q - j * g / q
  }

  lemma StepBounds(g: int, q: int, j: int)
    requires q >= 1
    ensures g - q < q * StepSize(g, q, j) < g + q
  {
    var x, y := j * g, (j + 1) * g;
    assert y == x + g;
    assert q * (x / q) <= x < q * (x / q) + q;
    assert q * (y / q) <= y < q * (y / q) + q;
    assert q * (y / q - x / q) == q * (y / q) - q * (x / q);
  }

  lemma CancelLeft(q: int, x: int, y: int)
    requires q >= 1 && q * x < q * y
    ensures x < y
  {
  }

  /** FillCount without reals. */
  lemma CountIs(gap: int, interval: int)
    requires interval >= 1
    ensures FillCount(gap, interval) == if 2 * gap > 3 * interval then Min(gap / interval - 1, FILL_CAP) else 0
  {
    QuotientFloor(gap, interval);
  }

  lemma QuotientFacts(gap: int, interval: int)
    requires interval >= 1
    ensures gap / interval * interval <= gap < (gap / interval + 1) * interval
    ensures gap >= interval ==> gap / interval >= 1
    ensures gap >= 2 * interval <==> gap / interval >= 2
  {
    var k := gap / interval;
    assert k * interval <= gap < (k + 1) * interval;
    if k >= 2 {
      TimesKeepsOrder(2, k, interval);
    } else {
      TimesKeepsOrder(k + 1, 2, interval);
    }
    if k <= 0 {
      TimesKeepsOrder(k + 1, 1, interval);
    }
  }

  lemma CountFacts(gap: int, interval: int)
    requires interval >= 1
    ensures FillCount(gap, interval) == 0 <==> gap < 2 * interval
    ensures var q := FillCount(gap, interval) + 1;
            q > 1 ==> q * interval <= gap && (q <= FILL_CAP ==> gap < (q + 1) * interval)
    ensures FillCount(gap, interval) <= FILL_CAP
  {
    CountIs(gap, interval);
    QuotientFacts(gap, interval);
    var q := FillCount(gap, interval) + 1;
    if q > 1 {
      TimesKeepsOrder(q, gap / interval, interval);
    }
  }

  /** Inserted points are at least one interval apart. */
  lemma StepAtLeastInterval(gap: int, interval: int, j: int)
    requires interval >= 1 && FillCount(gap, interval) > 0
    ensures StepSize(gap, FillCount(gap, interval) + 1, j) >= interval
  {
    var q := FillCount(gap, interval) + 1;
    CountFacts(gap, interval);
    StepBounds(gap, q, j);
    assert q * (interval - 1) == q * interval - q;
    CancelLeft(q, interval - 1, StepSize(gap, q, j));
  }

  /** The widest gap the cap of 10000 points can still close. */
  function WidestFillable(interval: int): int {
    10001 * (2 * interval - 1)
  }

  /** Two factors above one: what is short of one more interval is short of twice as many. */
  lemma ShortOfDouble(gap: int, q: int, interval: int)
    requires q >= 1 && interval >= 1 && gap < (q + 1) * interval
    ensures gap + q <= q * (2 * interval)
  {
    TimesKeepsOrder(1, q, interval - 1);
    var p := q * interval;
    assert q * (interval - 1) == p - q;
    assert (q + 1) * interval == p + interval && q * (2 * interval) == 2 * p;
  }

  lemma WidthBound(gap: int, interval: int)
    requires interval >= 1 && gap <= WidestFillable(interval)
    ensures var q := FillCount(gap, interval) + 1; gap + q <= q * (2 * interval) || (q == 1 && gap < 2 * interval)
  {
    var q := FillCount(gap, interval) + 1;
    CountFacts(gap, interval);
    if 1 < q <= FILL_CAP {
      ShortOfDouble(gap, q, interval);
    }
  }

  lemma StepBelowTwo(gap: int, interval: int, j: int)
    requires interval >= 1 && gap <= WidestFillable(interval)
    ensures StepSize(gap, FillCount(gap, interval) + 1, j) < 2 * interval
  {
    var q := FillCount(gap, interval) + 1;
    WidthBound(gap, interval);
    StepBounds(gap, q, j);
    if q == 1 && gap < 2 * interval {
      assert 1 * StepSize(gap, 1, j) < gap + 1;
    } else {
      CancelLeft(q, StepSize(gap, q, j), 2 * interval);
    }
  }

  /** Steps that all stay at or below `m` cannot add up to more than `k * m`. */
  lemma {:induction false} StepsAddUp(g: int, q: int, m: int, k: nat)
    requires q >= 1 && forall j :: 0 <= j < k ==> StepSize(g, q, j) <= m
    ensures k * g / q <= k * m
  {
    if k > 0 {
      StepsAddUp(g, q, m, k - 1);
      assert StepSize(g, q, k - 1) <= m;
      assert (k - 1) * m + m == k * m;
    } else {
      assert 0 * g / q == 0 / q == 0;
    }
  }

  lemma WideGapIsCapped(gap: int, interval: int)
    requires interval >= 1 && gap > WidestFillable(interval)
    ensures FillCount(gap, interval) == FILL_CAP
  {
    CountFacts(gap, interval);
    var q := FillCount(gap, interval) + 1;
    if q <= FILL_CAP {
      TimesKeepsOrder(q + 1, FILL_CAP + 1, interval);
    }
  }

  lemma AllStepsSmall(gap: int, interval: int, q: int)
    requires q >= 1 && gap > q * (2 * interval - 1)
    ensures exists j :: 0 <= j < q && StepSize(gap, q, j) >= 2 * interval
  {
    if forall j :: 0 <= j < q ==> StepSize(gap, q, j) <= 2 * interval - 1 {
      StepsAddUp(gap, q, 2 * interval - 1, q);
      WholeGap(gap, q);
    }
  }

  lemma WholeGap(gap: int, q: int)
    requires q >= 1
    ensures q * gap / q == gap
  {
    var k := q * gap / q;
    assert q * k <= q * gap < q * k + q;
    assert q * k + q == q * (k + 1) && q * gap < q * gap + q == q * (gap + 1);
    CancelLeft(q, gap, k + 1);
    CancelLeft(q, k, gap + 1);
  }

  lemma WideGapLeavesStep(gap: int, interval: int) returns (j: int)
    requires interval >= 1 && gap > WidestFillable(interval)
    ensures 0 <= j <= FillCount(gap, interval)
    ensures StepSize(gap, FillCount(gap, interval) + 1, j) >= 2 * interval
  {
    WideGapIsCapped(gap, interval);
    AllStepsSmall(gap, interval, FILL_CAP + 1);
    j :| 0 <= j < FILL_CAP + 1 && StepSize(gap, FILL_CAP + 1, j) >= 2 * interval;
  }

  // ---- Positions -------------------------------------------------------------------------------------

  ghost predicate UnixAscending(ps: seq<Point>) {
    && (forall i :: 0 <= i < |ps| ==> ps[i].ts >= 0)
    && (forall i, j :: 0 <= i < j < |ps| ==> ps[i].ts <= ps[j].ts)
  }

  /** Where the i-th original point ends up. */
  function PlaceOf(ps: seq<Point>, interval: int, i: nat): nat
    requires interval >= 1 && i < |ps|
  {
    Position(ps, Inserter(interval), i)
  }

  /** How many points go into the i-th gap. */
  function Inserted(ps: seq<Point>, interval: int, i: nat): nat
    requires interval >= 1 && i + 1 < |ps|
  {
    FillCount(GapAt(ps, i), interval)
  }

  /** Every original point is kept, in order, at its place; the last is the last. */
  lemma OriginalsKept(ps: seq<Point>, interval: int, i: nat)
    requires interval >= 1 && i < |ps|
    ensures PlaceOf(ps, interval, i) < |Fill(ps, interval)| && Fill(ps, interval)[PlaceOf(ps, interval, i)] == ps[i]
    ensures i + 1 < |ps| ==> PlaceOf(ps, interval, i + 1) == PlaceOf(ps, interval, i) + Inserted(ps, interval, i) + 1
    ensures i + 1 == |ps| ==> PlaceOf(ps, interval, i) + 1 == |Fill(ps, interval)|
  {
    OriginalKept(ps, Inserter(interval), i);
    if i + 1 < |ps| {
      NextPosition(ps, Inserter(interval), i);
    }
  }

  lemma Proportional(x: real, j: real, q: real, d: real)
    requires q != 0.0 && x == j / q * d
    ensures x * q == j * d
  {
    assert j / q * q == j;
    assert x * q == j / q * q * d;
  }

  /** `v` has come j parts of n + 1 of the way from `a` to `b`. */
  ghost predicate PartWay(a: real, b: real, n: nat, j: int, v: real) {
    (v - a) * (n + 1) as real == j as real * (b - a)
  }

  lemma InterpolatedPart(a: Point, b: Point, n: nat, j: int)
    ensures PartWay(a.value, b.value, n, j, Interpolated(a, b, n, j).value)
  {
    Proportional(Interpolated(a, b, n, j).value - a.value, j as real, (n + 1) as real, b.value - a.value);
  }

  /** Between two originals stand the points that interpolate them, and nothing else. */
  lemma InterpolationKept(ps: seq<Point>, interval: int, i: nat, j: int)
    requires interval >= 1 && i + 1 < |ps| && 1 <= j <= Inserted(ps, interval, i)
    ensures PlaceOf(ps, interval, i) + j < |Fill(ps, interval)|
    ensures Fill(ps, interval)[PlaceOf(ps, interval, i) + j]
         == Interpolated(ps[i], ps[i + 1], Inserted(ps, interval, i), j)
  {
    SegmentKept(ps, Inserter(interval), i, j - 1);
  }

  /** Their values are on the line between the ends, in any series. */
  lemma ValuesOnLine(ps: seq<Point>, interval: int, i: nat, j: int)
    requires interval >= 1 && i + 1 < |ps| && 1 <= j <= Inserted(ps, interval, i)
    ensures PlaceOf(ps, interval, i) + j < |Fill(ps, interval)|
    ensures PartWay(ps[i].value, ps[i + 1].value, Inserted(ps, interval, i), j,
                    Fill(ps, interval)[PlaceOf(ps, interval, i) + j].value)
  {
    InterpolationKept(ps, interval, i, j);
    InterpolatedPart(ps[i], ps[i + 1], Inserted(ps, interval, i), j);
  }

  lemma RoundedDown(t: int, start: int, x: int, q: int)
    requires q >= 1 && t == start + x / q
    ensures q * (t - start) <= x < q * (t - start) + q
  {
    var k := x / q;
    assert q * k <= x < q * k + q;
  }

  /** `p` is the j-th of `n` points on the line from `a` to `b`: its value to the point, its time rounded down. */
  ghost predicate OnLine(a: Point, b: Point, n: nat, j: int, p: Point) {
    && PartWay(a.value, b.value, n, j, p.value)
    && (n + 1) * (p.ts - a.ts) <= j * (b.ts - a.ts) < (n + 1) * (p.ts - a.ts) + (n + 1)
  }

  lemma InterpolatedOnLine(a: Point, b: Point, n: nat, j: int)
    requires 0 <= a.ts <= b.ts && 0 <= j <= n + 1
    ensures OnLine(a, b, n, j, Interpolated(a, b, n, j))
  {
    InterpolatedPart(a, b, n, j);
    InterpolatedTs(a, b, n, j);
    RoundedDown(Interpolated(a, b, n, j).ts, a.ts, j * (b.ts - a.ts), n + 1);
  }

  /** The points put into a gap lie on the line between its ends, one part of the way after the other. */
  lemma InsertedOnLine(ps: seq<Point>, interval: int, i: nat, j: int)
    requires interval >= 1 && UnixAscending(ps) && i + 1 < |ps| && 1 <= j <= Inserted(ps, interval, i)
    ensures PlaceOf(ps, interval, i) + j < |Fill(ps, interval)|
    ensures OnLine(ps[i], ps[i + 1], Inserted(ps, interval, i), j, Fill(ps, interval)[PlaceOf(ps, interval, i) + j])
  {
    InterpolationKept(ps, interval, i, j);
    InterpolatedOnLine(ps[i], ps[i + 1], Inserted(ps, interval, i), j);
  }

  /** As many points go into a gap as leave whole intervals between them, 10000 at most. */
  lemma InsertedIsMost(ps: seq<Point>, interval: int, i: nat)
    requires interval >= 1 && i + 1 < |ps|
    ensures var n, gap := Inserted(ps, interval, i), ps[i + 1].ts - ps[i].ts;
            && n <= 10000
            && (n > 0 ==> (n + 1) * interval <= gap)
            && (n < 10000 ==> gap < (n + 2) * interval)
  {
    CountFacts(GapAt(ps, i), interval);
  }

  lemma Between(frac: real, a: real, b: real)
    requires 0.0 <= frac <= 1.0
    ensures a <= b ==> a <= a + frac * (b - a) <= b
    ensures b <= a ==> b <= a + frac * (b - a) <= a
  {
    var d := b - a;
    var other := 1.0 - frac;
    if d >= 0.0 {
      assert frac * d >= 0.0 && other * d >= 0.0;
    } else {
      var e := 0.0 - d;
      assert frac * e >= 0.0 && other * e >= 0.0;
      assert frac * e == 0.0 - frac * d;
    }
    assert other * d == d - frac * d;
  }

  /** Each inserted point is at least one interval from the points on either side. */
  lemma InsertedSpacing(ps: seq<Point>, interval: int, i: nat, j: int)
    requires interval >= 1 && UnixAscending(ps) && i + 1 < |ps| && 1 <= j <= Inserted(ps, interval, i)
    ensures var f, k := Fill(ps, interval), PlaceOf(ps, interval, i) + j;
            && 0 < k < |f| - 1
            && f[k].ts - f[k - 1].ts >= interval
            && f[k + 1].ts - f[k].ts >= interval
  {
    SegmentSteps(ps, interval, i, j - 1);
    SegmentSteps(ps, interval, i, j);
    StepAtLeastInterval(GapAt(ps, i), interval, j - 1);
    StepAtLeastInterval(GapAt(ps, i), interval, j);
  }

  lemma InterpolatedValue(a: Point, b: Point, n: int, j: int)
    requires 1 <= j <= n
    ensures var v := Interpolated(a, b, n, j).value;
            (a.value <= b.value ==> a.value <= v <= b.value) && (b.value <= a.value ==> b.value <= v <= a.value)
  {
    QuotientBounds(j as real, (n + 1) as real, 0.0, 1.0);
    Between(j as real / (n + 1) as real, a.value, b.value);
  }

  lemma InterpolatedTime(a: Point, b: Point, n: int, j: int)
    requires 0 <= a.ts && 1 <= j <= n < b.ts - a.ts
    ensures a.ts < Interpolated(a, b, n, j).ts < b.ts
  {
    InterpolatedTs(a, b, n, j);
    StrictlyInside(j, n + 1, b.ts - a.ts);
  }

  /** Each inserted point lies strictly between its neighbours in time, and between them in value. */
  lemma InsertedBetween(ps: seq<Point>, interval: int, i: nat, j: int)
    requires interval >= 1 && UnixAscending(ps) && i + 1 < |ps| && 1 <= j <= Inserted(ps, interval, i)
    ensures PlaceOf(ps, interval, i) + j < |Fill(ps, interval)|
    ensures var a, b, p := ps[i], ps[i + 1], Fill(ps, interval)[PlaceOf(ps, interval, i) + j];
            && a.ts < p.ts < b.ts
            && (a.value <= b.value ==> a.value <= p.value <= b.value)
            && (b.value <= a.value ==> b.value <= p.value <= a.value)
  {
    var n := Inserted(ps, interval, i);
    InterpolationKept(ps, interval, i, j);
    CountFacts(GapAt(ps, i), interval);
    TimesKeepsOrder(1, interval, n + 1);
    InterpolatedTime(ps[i], ps[i + 1], n, j);
    InterpolatedValue(ps[i], ps[i + 1], n, j);
  }

  lemma StrictlyInside(j: int, q: int, g: int)
    requires 0 < j < q <= g
    ensures 0 < j * g / q < g
  {
    TimesKeepsOrder(1, j, g);
    TimesKeepsOrder(j, q - 1, g);
    assert (q - 1) * g == q * g - g;
    QuotientInside(j * g, q, g);
  }

  lemma QuotientInside(x: int, q: int, g: int)
    requires 1 <= q <= x < q * g
    ensures 0 < x / q < g
  {
    var k := x / q;
    assert q * k <= x < q * k + q;
    CancelLeft(q, k, g);
  }

  /** The j-th point from the left end of a gap, both ends included. */
  lemma PointInGap(ps: seq<Point>, interval: int, i: nat, j: int)
    requires interval >= 1 && UnixAscending(ps) && i + 1 < |ps| && 0 <= j <= Inserted(ps, interval, i) + 1
    ensures PlaceOf(ps, interval, i) + j < |Fill(ps, interval)|
    ensures Fill(ps, interval)[PlaceOf(ps, interval, i) + j].ts
         == ps[i].ts + j * GapAt(ps, i) / (Inserted(ps, interval, i) + 1)
  {
    var g, n := GapAt(ps, i), Inserted(ps, interval, i);
    OriginalsKept(ps, interval, i);
    OriginalsKept(ps, interval, i + 1);
    if j == 0 {
      ZeroQuotient(g, n + 1);
    } else if j == n + 1 {
      WholeGap(g, n + 1);
    } else {
      InterpolationKept(ps, interval, i, j);
      InterpolatedTs(ps[i], ps[i + 1], n, j);
    }
  }

  lemma ZeroQuotient(g: int, q: int)
    requires q >= 1
    ensures 0 * g / q == 0
  {
  }

  /** Consecutive points of the filled series, inside the i-th gap. */
  lemma SegmentSteps(ps: seq<Point>, interval: int, i: nat, j: int)
    requires interval >= 1 && UnixAscending(ps) && i + 1 < |ps| && 0 <= j <= Inserted(ps, interval, i)
    ensures var k := PlaceOf(ps, interval, i) + j;
            && k < |Fill(ps, interval)| - 1
            && GapAt(Fill(ps, interval), k) == StepSize(GapAt(ps, i), Inserted(ps, interval, i) + 1, j)
  {
    var f, k := Fill(ps, interval), PlaceOf(ps, interval, i) + j;
    PointInGap(ps, interval, i, j);
    PointInGap(ps, interval, i, j + 1);
    StepIs(ps[i].ts, f[k].ts, f[k + 1].ts, GapAt(ps, i), Inserted(ps, interval, i) + 1, j);
  }

  lemma StepIs(start: int, x: int, y: int, g: int, q: int, j: int)
    requires q >= 1 && x == start + j * g / q && y == start + (j + 1) * g / q
    ensures y - x == StepSize(g, q, j)
  {
  }

  // ---- No gap left, and idempotence ----------------------------------------------------------------------

  ghost predicate NoGapLeft(xs: seq<Point>, interval: int) {
    forall k :: 0 <= k < |xs| - 1 ==> GapAt(xs, k) < 2 * interval
  }

  lemma NarrowGapsClosed(ps: seq<Point>, interval: int)
    requires interval >= 1 && UnixAscending(ps)
    requires forall i :: 0 <= i < |ps| - 1 ==> GapAt(ps, i) <= WidestFillable(interval)
    ensures NoGapLeft(Fill(ps, interval), interval)
  {
    var f := Fill(ps, interval);
    forall k | 0 <= k < |f| - 1
      ensures GapAt(f, k) < 2 * interval
    {
      var i, j := Locate(ps, Inserter(interval), k);
      SegmentSteps(ps, interval, i, j);
      StepBelowTwo(GapAt(ps, i), interval, j);
    }
  }

  lemma WideGapStaysOpen(ps: seq<Point>, interval: int, i: nat)
    requires interval >= 1 && UnixAscending(ps)
    requires i + 1 < |ps| && GapAt(ps, i) > WidestFillable(interval)
    ensures !NoGapLeft(Fill(ps, interval), interval)
  {
    var j := WideGapLeavesStep(GapAt(ps, i), interval);
    SegmentSteps(ps, interval, i, j);
    assert GapAt(Fill(ps, interval), PlaceOf(ps, interval, i) + j) >= 2 * interval;
  }

  /** Filling leaves every gap below two intervals exactly when no gap is wider than the cap can close. */
  lemma GapsClosedIff(ps: seq<Point>, interval: int)
    requires interval >= 1 && UnixAscending(ps)
    ensures NoGapLeft(Fill(ps, interval), interval)
        <==> forall i :: 0 <= i < |ps| - 1 ==> GapAt(ps, i) <= WidestFillable(interval)
  {
    if forall i :: 0 <= i < |ps| - 1 ==> GapAt(ps, i) <= WidestFillable(interval) {
      NarrowGapsClosed(ps, interval);
    } else {
      var i :| 0 <= i < |ps| - 1 && GapAt(ps, i) > WidestFillable(interval);
      WideGapStaysOpen(ps, interval, i);
    }
  }

  lemma FillFixedIff(xs: seq<Point>, interval: int)
    requires interval >= 1
    ensures Fill(xs, interval) == xs <==> NoGapLeft(xs, interval)
  {
    UnchangedIff(xs, Inserter(interval));
    forall i | 0 <= i < |xs| - 1
      ensures Inserter(interval)(xs[i], xs[i + 1]) == [] <==> GapAt(xs, i) < 2 * interval
    {
      CountFacts(GapAt(xs, i), interval);
    }
  }

  /** Filling again changes nothing exactly when no gap was wider than the cap can close. */
  lemma FillIdempotentIff(ps: seq<Point>, interval: int)
    requires interval >= 1 && UnixAscending(ps)
    ensures Fill(Fill(ps, interval), interval) == Fill(ps, interval)
        <==> forall i :: 0 <= i < |ps| - 1 ==> GapAt(ps, i) <= WidestFillable(interval)
  {
    GapsClosedIff(ps, interval);
    FillFixedIff(Fill(ps, interval), interval);
  }

  // ---- Downsampling -------------------------------------------------------------------------------------------

  function Chunks(ps: seq<Point>, size: nat): seq<seq<Point>>
    requires size >= 1
  {
    if ps == [] then [] else [Take(ps, size)] + Chunks(ps[|Take(ps, size)|..], size)
  }

  function SumTs(ps: seq<Point>): int {
    if ps == [] then 0 else ps[0].ts + SumTs(ps[1..])
  }

  function SumValues(ps: seq<Point>): real {
    if ps == [] then 0.0 else ps[0].value + SumValues(ps[1..])
  }

  function MeanPoint(bin: seq<Point>): Point
    requires bin != []
  {
    Point(Trunc(SumTs(bin) as real / |bin| as real), SumValues(bin) / |bin| as real)
  }

  /** Python's floor division, at least one; a negative target gives bins of one. */
  function BinSize(n: nat, target: int): (size: nat)
    requires target != 0 && target < n
    ensures size >= 1
  {
    if target < 0 then 1 else AtLeastOne(n, target); n / target
  }

  /** The numbers averaged: the times and the values of a bin. */
  function Times(ps: seq<Point>): seq<real> {
    Map((p: Point) => p.ts as real, ps)
  }

  function Values(ps: seq<Point>): seq<real> {
    Map((p: Point) => p.value, ps)
  }

  lemma SumFront(x: real, xs: seq<real>)
    ensures Sum([x] + xs) == x + Sum(xs)
  {
    SumConcat([x], xs);
    assert [x][..0] == [];
  }

  lemma {:induction false} SumOfTimes(ps: seq<Point>)
    ensures Sum(Times(ps)) == SumTs(ps) as real
  {
    if ps != [] {
      SumOfTimes(ps[1..]);
      assert Times(ps) == [ps[0].ts as real] + Times(ps[1..]);
      SumFront(ps[0].ts as real, Times(ps[1..]));
    }
  }

  lemma {:induction false} SumOfValues(ps: seq<Point>)
    ensures Sum(Values(ps)) == SumValues(ps)
  {
    if ps != [] {
      SumOfValues(ps[1..]);
      assert Values(ps) == [ps[0].value] + Values(ps[1..]);
      SumFront(ps[0].value, Values(ps[1..]));
    }
  }

  lemma ScaleReal(a: real, b: real, q: real)
    requires q > 0.0
    ensures a <= b ==> a * q <= b * q
    ensures a < b ==> a * q < b * q
  {
    assert a <= b ==> (b - a) * q >= 0.0;
    assert a < b ==> (b - a) * q > 0.0;
  }

  /** `k` times `q` is `s` rounded towards zero to a multiple of `q`. */
  ghost predicate TowardsZero(k: int, q: real, s: real) {
    && (s >= 0.0 ==> k as real * q <= s < (k + 1) as real * q)
    && (s < 0.0 ==> (k - 1) as real * q < s <= k as real * q)
  }

  lemma TruncDown(x: real, q: real)
    requires q > 0.0 && x >= 0.0
    ensures Trunc(x) as real * q <= x * q < (Trunc(x) + 1) as real * q
  {
    ScaleReal(Trunc(x) as real, x, q);
    ScaleReal(x, (Trunc(x) + 1) as real, q);
  }

  lemma TruncUp(x: real, q: real)
    requires q > 0.0 && x < 0.0
    ensures (Trunc(x) - 1) as real * q < x * q <= Trunc(x) as real * q
  {
    ScaleReal(x, Trunc(x) as real, q);
    ScaleReal((Trunc(x) - 1) as real, x, q);
  }

  lemma TruncIs(x: real, q: real, s: real)
    requires q > 0.0 && x * q == s
    ensures TowardsZero(Trunc(x), q, s)
  {
    if x >= 0.0 {
      assert s >= 0.0 by {
        ScaleReal(0.0, x, q);
      }
      TruncDown(x, q);
    } else {
      assert s < 0.0 by {
        ScaleReal(x, 0.0, q);
      }
      TruncUp(x, q);
    }
  }

  /** The mean point of a bin has the mean of the values, and the mean of the times truncated towards zero. */
  lemma MeanPointIs(bin: seq<Point>)
    requires bin != []
    ensures MeanPoint(bin).value * |bin| as real == Sum(Values(bin))
    ensures TowardsZero(MeanPoint(bin).ts, |bin| as real, Sum(Times(bin)))
  {
    var n := |bin| as real;
    SumOfTimes(bin);
    SumOfValues(bin);
    QuotientTimes(SumTs(bin) as real, n);
    QuotientTimes(SumValues(bin), n);
    TruncIs(SumTs(bin) as real / n, n, SumTs(bin) as real);
  }

  lemma QuotientTimes(s: real, q: real)
    requires q != 0.0
    ensures s / q * q == s
  {
  }

  lemma MeanOfOne(p: Point)
    ensures MeanPoint([p]) == p
  {
    assert SumTs([p][1..]) == 0 && SumValues([p][1..]) == 0.0;
    assert Trunc(p.ts as real / 1 as real) == p.ts;
  }

  /** Bins of one are the points themselves. */
  lemma {:induction false} SinglesKeep(ps: seq<Point>)
    ensures |Chunks(ps, 1)| == |ps|
    ensures forall b :: 0 <= b < |ps| ==> Chunks(ps, 1)[b] != [] && MeanPoint(Chunks(ps, 1)[b]) == ps[b]
  {
    if ps != [] {
      SinglesKeep(ps[1..]);
      MeanOfOne(ps[0]);
      assert Take(ps, 1) == [ps[0]];
    }
  }

  /** A target of zero for a non-empty series divides by zero; a negative one changes nothing. */
  method Downsample(ps: seq<Point>, target: int) returns (out: Option<seq<Point>>)
    ensures |ps| <= target || ps == [] || target < 0 ==> out == Some(ps)
    ensures ps != [] && target == 0 ==> out == None
    ensures ps != [] && target != 0 && |ps| > target ==>
              var bins := Chunks(ps, BinSize(|ps|, target));
              out.Some? && |out.value| == |bins|
              && forall b :: 0 <= b < |bins| ==> bins[b] != [] && out.value[b] == MeanPoint(bins[b])
  {
    var n := |ps|;
    if n <= target || n == 0 {
      return Some(ps);
    }
    if target == 0 {
      return None;
    }
    var means := BinMeans(ps, BinSize(n, target));
    if target < 0 {
      SinglesKeep(ps);
      assert means == ps;
    }
    out := Some(means);
  }

  /** The mean points of the bins, bin by bin. */
  function Means(ps: seq<Point>, size: nat): seq<Point>
    requires size >= 1
    decreases |ps|
  {
    if ps == [] then []
    else
      var bin := Take(ps, size);
      [MeanPoint(bin)] + Means(ps[|bin|..], size)
  }

  lemma {:induction false} MeansOfChunks(ps: seq<Point>, size: nat)
    requires size >= 1
    ensures var bins := Chunks(ps, size);
            && |Means(ps, size)| == |bins|
            && forall b :: 0 <= b < |bins| ==> bins[b] != [] && Means(ps, size)[b] == MeanPoint(bins[b])
    decreases |ps|
  {
    if ps != [] {
      MeansOfChunks(ps[|Take(ps, size)|..], size);
    }
  }

  lemma TakeFrom(ps: seq<Point>, size: nat, start: nat)
    requires size >= 1 && start < |ps|
    ensures var end := Min(start + size, |ps|);
            && start < end <= |ps|
            && Take(ps[start..], size) == ps[start..end] && ps[start..][end - start..] == ps[end..]
  {
  }

  /** The bin from position `start`, and the bins behind it. */
  lemma MeansFrom(ps: seq<Point>, size: nat, start: nat, end: nat)
    requires size >= 1 && start < |ps| && end == Min(start + size, |ps|)
    ensures start < end <= |ps| && Means(ps[start..], size) == [MeanPoint(ps[start..end])] + Means(ps[end..], size)
  {
    TakeFrom(ps, size, start);
  }

  lemma AppendFirst(out: seq<Point>, p: Point, rest: seq<Point>)
    ensures out + ([p] + rest) == (out + [p]) + rest
  {
  }

  method BinMeans(ps: seq<Point>, binSize: nat) returns (out: seq<Point>)
    requires binSize >= 1
    ensures var bins := Chunks(ps, binSize);
            |out| == |bins| && forall b :: 0 <= b < |bins| ==> bins[b] != [] && out[b] == MeanPoint(bins[b])
  {
    out := [];
    var start := 0;
    assert ps[0..] == ps;
    while start < |ps|
      invariant start <= |ps|
      invariant out + Means(ps[start..], binSize) == Means(ps, binSize)
    {
      var end := Min(start + binSize, |ps|);
      MeansFrom(ps, binSize, start, end);
      AppendFirst(out, MeanPoint(ps[start..end]), Means(ps[end..], binSize));
      out := out + [MeanPoint(ps[start..end])];
      start := end;
    }
    assert ps[start..] == [] && out + [] == out;
    MeansOfChunks(ps, binSize);
  }

  lemma AtLeastOne(n: nat, target: nat)
    requires 1 <= target < n
    ensures 1 <= n / target <= n
  {
  }

  function Flatten(bins: seq<seq<Point>>): seq<Point> {
    if bins == [] then [] else bins[0] + Flatten(bins[1..])
  }

  lemma {:induction false} ChunksPartition(ps: seq<Point>, size: nat)
    requires size >= 1
    ensures Flatten(Chunks(ps, size)) == ps
    ensures forall b :: 0 <= b < |Chunks(ps, size)| - 1 ==> |Chunks(ps, size)[b]| == size
  {
    if ps != [] {
      var first := Take(ps, size);
      var rest := ps[|first|..];
      assert ps == first + rest && Chunks(ps, size) == [first] + Chunks(rest, size);
      ChunksPartition(rest, size);
      assert ([first] + Chunks(rest, size))[1..] == Chunks(rest, size);
    }
  }

  lemma {:induction false} ChunksSize(ps: seq<Point>, size: nat)
    requires size >= 1
    ensures size * (|Chunks(ps, size)| - 1) < |ps| || ps == []
    ensures |ps| <= size * |Chunks(ps, size)|
  {
    if ps != [] {
      var rest := ps[|Take(ps, size)|..];
      ChunksSize(rest, size);
      OneMore(size, |Chunks(rest, size)|);
    }
  }

  lemma OneMore(size: int, c: int)
    ensures size * (c + 1) == size * c + size && size * c == size * (c - 1) + size
  {
  }

  /**
   The bins partition the series in order, all but the last of one size; and there are at least
   `target` of them and at most `2 * target - 1`.
   */
  lemma DownsampleCount(ps: seq<Point>, target: nat)
    requires 1 <= target < |ps|
    ensures var bins := Chunks(ps, BinSize(|ps|, target));
            && Flatten(bins) == ps
            && (forall b :: 0 <= b < |bins| - 1 ==> |bins[b]| == |ps| / target)
            && target <= |bins| <= 2 * target - 1
  {
    var n, size := |ps|, |ps| / target;
    AtLeastOne(n, target);
    ChunksPartition(ps, size);
    ChunksSize(ps, size);
    ChunkCountBounds(n, target, size, |Chunks(ps, size)|);
  }

  lemma ChunkCountBounds(n: int, target: int, size: int, c: int)
    requires 1 <= target < n && size == n / target && size >= 1
    requires size * (c - 1) < n <= size * c
    ensures target <= c <= 2 * target - 1
  {
    assert size * target <= n < size * target + target;
    assert size * (target - 1) == size * target - size;
    assert size * (2 * target - 1) == size * target + size * (target - 1);
    if c < target {
      TimesKeepsOrder(c, target - 1, size);
    }
    if c >= 2 * target {
      TimesKeepsOrder(2 * target - 1, c - 1, size);
      TimesKeepsOrder(1, size, target - 1);
    }
  }
}
