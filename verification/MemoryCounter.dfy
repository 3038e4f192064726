/**
 The byte counter of the edge buffer under concurrency. A writer pushes under the deque's
 lock and adds to the counter afterwards; readers, drains and evictions remove entries
 and subtract afterwards. The counter is a wrapping 64-bit word. Steps of any number of
 threads interleave freely; the lock that readers keep until they have subtracted is not
 assumed, so every real interleaving is among those considered.
 */
module MemoryCounter {

  const TWO_64: nat := 0x1_0000_0000_0000_0000

  /** Where a thread stands between its change of the deque and its change of the counter. */
  datatype Thread = Idle | Adding(size: nat) | Subtracting(size: nat)

  datatype State = State(deque: seq<nat>, counter: nat, threads: seq<Thread>)

  datatype Step =
    | Push(t: nat, size: nat)
    | AddToCounter(t: nat)
    /** Remove the entries at the positions in `out`: a read, a drain, a typed drain or an eviction. */
    | Remove(t: nat, out: set<nat>)
    | SubtractFromCounter(t: nat)

  function ByteSum(xs: seq<nat>): nat {
    if xs == [] then 0 else ByteSum(xs[..|xs| - 1]) + xs[|xs| - 1]
  }

  /** Elements whose position is in `out` (or is not, when `inside` is false). */
  function Select(xs: seq<nat>, out: set<nat>, inside: bool): seq<nat> {
    if xs == [] then []
    else
      var n := |xs| - 1;
      Select(xs[..n], out, inside) + if (n in out) == inside then [xs[n]] else []
  }

  predicate Enabled(s: State, step: Step) {
    step.t < |s.threads| &&
    match step
    case Push(t, _) => s.threads[t].Idle?
    case AddToCounter(t) => s.threads[t].Adding?
    case Remove(t, _) => s.threads[t].Idle?
    case SubtractFromCounter(t) => s.threads[t].Subtracting?
  }

  /** A step that its thread cannot take now changes nothing. */
  function Next(s: State, step: Step): State {
    if !Enabled(s, step) then s
    else match step
      case Push(t, size) => State(s.deque + [size], s.counter, s.threads[t := Adding(size)])
      case AddToCounter(t) => State(s.deque, (s.counter + s.threads[t].size) % TWO_64, s.threads[t := Idle])
      case Remove(t, out) =>
        State(Select(s.deque, out, false), s.counter,
              s.threads[t := Subtracting(ByteSum(Select(s.deque, out, true)))])
      case SubtractFromCounter(t) => State(s.deque, (s.counter - s.threads[t].size) % TWO_64, s.threads[t := Idle])
  }

  function Start(threads: nat): State {
    State([], 0, seq(threads, _ => Idle))
  }

  function Run(threads: nat, steps: seq<Step>): State {
    if steps == [] then Start(threads) else Next(Run(threads, steps[..|steps| - 1]), steps[|steps| - 1])
  }

  function Owed(th: Thread): int {
    match th
    case Idle => 0
    case Adding(size) => size
    case Subtracting(size) => 0 - size
  }

  /** Additions still to be made minus subtractions still to be made. */
  function InFlight(threads: seq<Thread>): int {
    if threads == [] then 0
    else InFlight(threads[..|threads| - 1]) + Owed(threads[|threads| - 1])
  }

  lemma {:induction false} UpdateInFlight(threads: seq<Thread>, t: nat, th: Thread)
    requires t < |threads|
    ensures InFlight(threads[t := th]) == InFlight(threads) - Owed(threads[t]) + Owed(th)
  {
    var n := |threads| - 1;
    if t < n {
      UpdateInFlight(threads[..n], t, th);
      assert threads[t := th][..n] == threads[..n][t := th];
    } else {
      assert threads[t := th][..n] == threads[..n];
    }
  }

  lemma {:induction false} SelectPartitions(xs: seq<nat>, out: set<nat>)
    ensures ByteSum(Select(xs, out, true)) + ByteSum(Select(xs, out, false)) == ByteSum(xs)
  {
    if xs != [] {
      var n := |xs| - 1;
      SelectPartitions(xs[..n], out);
      var tail := Select(xs[..n], out, n in out);
      assert (tail + [xs[n]])[..|tail|] == tail;
      assert Select(xs[..n], out, n !in out) + [] == Select(xs[..n], out, n !in out);
    }
  }

  /** The surplus of the counter over the deque, once what is in flight is settled. */
  function Surplus(s: State): int {
    s.counter + InFlight(s.threads) - ByteSum(s.deque)
  }

  /** Reducing modulo `m` takes away a whole number of `m`s. */
  lemma Reduced(x: int, m: nat) returns (wraps: int)
    requires m > 0
    ensures x % m == x + wraps * m && 0 <= x % m < m
  {
    wraps := 0 - x / m;
  }

  /** A step moves the surplus by a whole number of wrap-arounds. */
  lemma StepSurplus(s: State, step: Step) returns (wraps: int)
    requires s.counter < TWO_64
    ensures Surplus(Next(s, step)) == Surplus(s) + wraps * TWO_64
    ensures Next(s, step).counter < TWO_64
  {
    wraps := 0;
    if Enabled(s, step) {
      match step
      case Push(t, size) =>
        UpdateInFlight(s.threads, t, Adding(size));
        SumSnoc(s.deque, size);
      case AddToCounter(t) => wraps := SettleSurplus(s, t, s.counter + s.threads[t].size);
      case Remove(t, out) => RemoveSurplus(s, t, out);
      case SubtractFromCounter(t) => wraps := SettleSurplus(s, t, s.counter - s.threads[t].size);
    }
  }

  lemma SumSnoc(xs: seq<nat>, x: nat)
    ensures ByteSum(xs + [x]) == ByteSum(xs) + x
  {
    assert (xs + [x])[..|xs|] == xs;
  }

  lemma RemoveSurplus(s: State, t: nat, out: set<nat>)
    requires t < |s.threads| && s.threads[t].Idle?
    ensures var owed := Subtracting(ByteSum(Select(s.deque, out, true)));
            Surplus(State(Select(s.deque, out, false), s.counter, s.threads[t := owed])) == Surplus(s)
  {
    SelectPartitions(s.deque, out);
    UpdateInFlight(s.threads, t, Subtracting(ByteSum(Select(s.deque, out, true))));
  }

  lemma SettleSurplus(s: State, t: nat, counter: int) returns (wraps: int)
    requires t < |s.threads| && counter == s.counter + Owed(s.threads[t])
    ensures counter % TWO_64 < TWO_64
    ensures Surplus(State(s.deque, counter % TWO_64, s.threads[t := Idle])) == Surplus(s) + wraps * TWO_64
  {
    UpdateInFlight(s.threads, t, Idle);
    wraps := Reduced(counter, TWO_64);
  }

  lemma {:induction false} StartQuiet(threads: nat)
    ensures InFlight(Start(threads).threads) == 0
  {
    if threads > 0 {
      StartQuiet(threads - 1);
      assert Start(threads).threads[..threads - 1] == Start(threads - 1).threads;
    }
  }

  lemma {:induction false} RunSurplus(threads: nat, steps: seq<Step>) returns (wraps: int)
    ensures Surplus(Run(threads, steps)) == wraps * TWO_64
    ensures Run(threads, steps).counter < TWO_64
  {
    if steps == [] {
      StartQuiet(threads);
      wraps := 0;
    } else {
      var w := RunSurplus(threads, steps[..|steps| - 1]);
      var v := StepSurplus(Run(threads, steps[..|steps| - 1]), steps[|steps| - 1]);
      wraps := w + v;
    }
  }

  /** In every interleaving, counter plus what is in flight equals the bytes in the deque modulo 2^64. */
  lemma CounterTracksDeque(threads: nat, steps: seq<Step>)
    ensures var s := Run(threads, steps);
            (s.counter + InFlight(s.threads)) % TWO_64 == ByteSum(s.deque) % TWO_64
  {
    var s := Run(threads, steps);
    var w := RunSurplus(threads, steps);
    SameResidue(s.counter + InFlight(s.threads), ByteSum(s.deque), w, TWO_64);
  }

  lemma SameResidue(a: int, b: int, w: int, m: nat)
    requires m > 0 && a - b == w * m
    ensures a % m == b % m
  {
    var u := Reduced(a, m);
    var v := Reduced(b, m);
    assert a % m - b % m == (w + u - v) * m;
    NoMultipleBetween(a % m - b % m, w + u - v, m);
  }

  lemma NoMultipleBetween(d: int, k: int, m: nat)
    requires d == k * m && 0 - m < d < m
    ensures d == 0
  {
    assert k >= 1 ==> k * m >= m;
    assert k <= -1 ==> k * m <= 0 - m;
  }

  lemma {:induction false} IdleOwesNothing(threads: seq<Thread>)
    requires forall t :: 0 <= t < |threads| ==> threads[t].Idle?
    ensures InFlight(threads) == 0
  {
    if threads != [] {
      IdleOwesNothing(threads[..|threads| - 1]);
    }
  }

  lemma ExactIff(counter: int, owed: int, total: int, w: int)
    requires 0 <= counter < TWO_64 && 0 <= total < TWO_64
    requires counter + owed - total == w * TWO_64
    ensures counter == total <==> owed % TWO_64 == 0
  {
    if owed % TWO_64 == 0 {
      var q := owed / TWO_64;
      assert counter - total == (w - q) * TWO_64;
    }
  }

  /**
   The counter a caller reads is the true byte total exactly when the work in flight cancels
   out modulo 2^64; in particular whenever every thread is idle.
   */
  lemma CounterExactIff(threads: nat, steps: seq<Step>)
    requires ByteSum(Run(threads, steps).deque) < TWO_64
    ensures var s := Run(threads, steps);
            && (s.counter == ByteSum(s.deque) <==> InFlight(s.threads) % TWO_64 == 0)
            && ((forall t :: 0 <= t < |s.threads| ==> s.threads[t].Idle?) ==> s.counter == ByteSum(s.deque))
  {
    var s := Run(threads, steps);
    var w := RunSurplus(threads, steps);
    ExactIff(s.counter, InFlight(s.threads), ByteSum(s.deque), w);
    if forall t :: 0 <= t < |s.threads| ==> s.threads[t].Idle? {
      IdleOwesNothing(s.threads);
    }
  }

  lemma RunSnoc(threads: nat, steps: seq<Step>, step: Step)
    ensures Run(threads, steps + [step]) == Next(Run(threads, steps), step)
  {
    assert (steps + [step])[..|steps|] == steps;
  }

  lemma SelectSingleton(x: nat)
    ensures Select([x], {0}, true) == [x] && Select([x], {0}, false) == [] && ByteSum([x]) == x
  {
    assert [x][..0] == [];
  }

  lemma RunThree(threads: nat, k: Step, l: Step, m: Step)
    ensures Run(threads, [k, l, m]) == Next(Next(Next(Start(threads), k), l), m)
  {
    RunSnoc(threads, [], k);
    RunSnoc(threads, [k], l);
    RunSnoc(threads, [k, l], m);
    assert [] + [k] == [k] && [k] + [l] == [k, l] && [k, l] + [m] == [k, l, m];
  }

  /** A push and, before its size is added, a removal by another thread that has been subtracted. */
  lemma SubtractFirst(threads: nat, size: nat)
    requires threads >= 2 && 0 < size < TWO_64
    ensures Next(Next(Next(Start(threads), Push(0, size)), Remove(1, {0})), SubtractFromCounter(1))
         == State([], TWO_64 - size, Start(threads).threads[0 := Adding(size)])
  {
    var pushed := Next(Start(threads), Push(0, size));
    assert pushed == State([size], 0, Start(threads).threads[0 := Adding(size)]) by {
      assert [] + [size] == [size];
    }
    SelectSingleton(size);
    var removed := Next(pushed, Remove(1, {0}));
    assert removed == State([], 0, pushed.threads[1 := Subtracting(size)]);
    assert removed.threads[1 := Idle] == pushed.threads;
  }

  /**
   A reader that takes a just-pushed entry and subtracts before the writer has added
   drives the counter below zero: it reads 2^64 - size while the deque is empty.
   */
  lemma CounterCanWrap(threads: nat, size: nat)
    requires threads >= 2 && 0 < size < TWO_64
    ensures var s := Run(threads, [Push(0, size), Remove(1, {0}), SubtractFromCounter(1)]);
            s.deque == [] && s.counter == 0x1_0000_0000_0000_0000 - size
  {
    RunThree(threads, Push(0, size), Remove(1, {0}), SubtractFromCounter(1));
    SubtractFirst(threads, size);
  }

  // ---- Making room by what the counter says -----------------------------------------

  /** Thread `t` evicts the oldest entry: it pops it, then subtracts its size. */
  function EvictOldest(s: State, t: nat): State {
    Next(Next(s, Remove(t, {0})), SubtractFromCounter(t))
  }

  lemma {:induction false} SelectFront(xs: seq<nat>)
    requires xs != []
    ensures Select(xs, {0}, true) == [xs[0]] && Select(xs, {0}, false) == xs[1..]
  {
    var n := |xs| - 1;
    if n > 0 {
      SelectFront(xs[..n]);
      assert xs[..n][1..] + [xs[n]] == xs[1..] && [xs[0]] + [] == [xs[0]];
    } else {
      assert xs == [xs[0]];
      SelectSingleton(xs[0]);
    }
  }

  lemma EvictsFront(s: State, t: nat)
    requires t < |s.threads| && s.threads[t].Idle? && s.deque != []
    ensures EvictOldest(s, t) == State(s.deque[1..], (s.counter - s.deque[0]) % TWO_64, s.threads)
  {
    SelectFront(s.deque);
    SumOfOne(s.deque[0]);
    assert s.threads[t := Subtracting(s.deque[0])][t := Idle] == s.threads;
  }

  lemma SumOfOne(x: nat)
    ensures ByteSum([x]) == x
  {
    assert [x][..0] == [];
  }

  /** The test a writer makes before it pushes `size` bytes; the sum is a 64-bit word as well. */
  predicate Full(s: State, size: nat, max: nat) {
    (s.counter + size) % TWO_64 > max
  }

  /** The eviction loop of thread `t` with no other thread in between. */
  function MakeRoom(s: State, t: nat, size: nat, max: nat): State
    requires t < |s.threads| && s.threads[t].Idle?
    decreases |s.deque|
  {
    if s.deque == [] || !Full(s, size, max) then s
    else
      EvictsFront(s, t);
      MakeRoom(EvictOldest(s, t), t, size, max)
  }

  lemma {:induction false} MakeRoomOnlyEvicts(s: State, t: nat, size: nat, max: nat)
    requires t < |s.threads| && s.threads[t].Idle?
    ensures |MakeRoom(s, t, size, max).deque| <= |s.deque|
    ensures MakeRoom(s, t, size, max).deque == s.deque <==> s.deque == [] || !Full(s, size, max)
    decreases |s.deque|
  {
    if s.deque != [] && Full(s, size, max) {
      EvictsFront(s, t);
      MakeRoomOnlyEvicts(EvictOldest(s, t), t, size, max);
    }
  }

  lemma {:induction false} SumTail(xs: seq<nat>)
    requires xs != []
    ensures ByteSum(xs) == xs[0] + ByteSum(xs[1..])
  {
    var n := |xs| - 1;
    if n > 0 {
      SumTail(xs[..n]);
      assert xs[1..][..n - 1] == xs[..n][1..];
    } else {
      assert xs == [xs[0]];
      SumOfOne(xs[0]);
    }
  }

  lemma ShiftedResidue(x: int, y: int, m: nat)
    requires m > 0
    ensures (x % m + y) % m == (x + y) % m
  {
    var wraps := Reduced(x, m);
    SameResidue(x % m + y, x + y, wraps, m);
  }

  /** What the test would see with the `k` oldest entries gone. */
  function Seen(s: State, size: nat, k: nat): int
    requires k <= |s.deque|
  {
    (s.counter - ByteSum(s.deque[..k]) + size) % TWO_64
  }

  lemma SeenLater(s: State, t: nat, size: nat, k: nat)
    requires t < |s.threads| && s.threads[t].Idle? && k < |s.deque|
    ensures |EvictOldest(s, t).deque| == |s.deque| - 1
    ensures Seen(EvictOldest(s, t), size, k) == Seen(s, size, k + 1)
  {
    EvictsFront(s, t);
    var rest := s.deque[1..];
    assert s.deque[..k + 1] == [s.deque[0]] + rest[..k];
    SumTail([s.deque[0]] + rest[..k]);
    assert ([s.deque[0]] + rest[..k])[1..] == rest[..k];
    ShiftedResidue(s.counter - s.deque[0], size - ByteSum(rest[..k]), TWO_64);
  }

  /** Of `n` entries the first `k` have to go: what is seen without them is within the bound, and not before. */
  ghost predicate Fewest(seen: nat -> int, n: nat, max: nat, k: nat) {
    && k <= n
    && (k < n ==> seen(k) <= max)
    && forall i :: 0 <= i < k ==> seen(i) > max
  }

  lemma FewestStep(seen: nat -> int, later: nat -> int, n: nat, max: nat, k: nat)
    requires Fewest(later, n, max, k) && seen(0) > max
    requires forall i :: 0 <= i < n ==> seen(i + 1) == later(i)
    ensures Fewest(seen, n + 1, max, k + 1)
  {
    forall i | 0 <= i < k + 1
      ensures seen(i) > max
    {
      if i > 0 {
        assert seen(i - 1 + 1) == later(i - 1);
      }
    }
  }

  function Sight(s: State, size: nat): nat -> int {
    (k: nat) => if k <= |s.deque| then Seen(s, size, k) else 0
  }

  lemma SightNow(s: State, size: nat, max: nat)
    ensures Sight(s, size)(0) > max <==> Full(s, size, max)
  {
    assert s.deque[..0] == [];
  }

  lemma SightLater(s: State, t: nat, size: nat)
    requires t < |s.threads| && s.threads[t].Idle? && s.deque != []
    ensures |EvictOldest(s, t).deque| + 1 == |s.deque|
    ensures forall i :: 0 <= i < |s.deque| - 1 ==> Sight(s, size)(i + 1) == Sight(EvictOldest(s, t), size)(i)
  {
    SeenLater(s, t, size, 0);
    forall i | 0 <= i < |s.deque| - 1
      ensures Sight(s, size)(i + 1) == Sight(EvictOldest(s, t), size)(i)
    {
      SeenLater(s, t, size, i);
    }
  }

  /** The loop takes out the fewest oldest entries with which the test no longer finds memory full, or all of them. */
  lemma {:induction false} MakeRoomEvictsFewest(s: State, t: nat, size: nat, max: nat) returns (k: nat)
    requires t < |s.threads| && s.threads[t].Idle?
    ensures Fewest(Sight(s, size), |s.deque|, max, k) && MakeRoom(s, t, size, max).deque == s.deque[k..]
    decreases |s.deque|
  {
    SightNow(s, size, max);
    if s.deque == [] || !Full(s, size, max) {
      k := 0;
      assert s.deque[0..] == s.deque;
    } else {
      EvictsFront(s, t);
      var later := EvictOldest(s, t);
      var j := MakeRoomEvictsFewest(later, t, size, max);
      k := j + 1;
      assert later.deque[j..] == s.deque[k..];
      SightLater(s, t, size);
      FewestStep(Sight(s, size), Sight(later, size), |later.deque|, max, j);
    }
  }

  /** What a reachable counter makes of the test. */
  lemma FullIff(threads: nat, steps: seq<Step>, size: nat, max: nat)
    ensures var s := Run(threads, steps);
            Full(s, size, max) <==> (ByteSum(s.deque) + size - InFlight(s.threads)) % TWO_64 > max
  {
    var s := Run(threads, steps);
    var w := RunSurplus(threads, steps);
    SameResidue(s.counter + size, ByteSum(s.deque) + size - InFlight(s.threads), w, TWO_64);
  }

  /**
   In any reachable state a writer evicts nothing exactly when the deque is empty, or the bytes in it, with the new
   entry and without what is still to be added or plus what is still to be subtracted, are within the bound as a 64-bit
   word.
   */
  lemma EvictsNothingIff(threads: nat, steps: seq<Step>, t: nat, size: nat, max: nat)
    requires t < |Run(threads, steps).threads| && Run(threads, steps).threads[t].Idle?
    ensures var s := Run(threads, steps);
            MakeRoom(s, t, size, max).deque == s.deque
            <==> s.deque == [] || (ByteSum(s.deque) + size - InFlight(s.threads)) % TWO_64 <= max
  {
    FullIff(threads, steps, size, max);
    MakeRoomOnlyEvicts(Run(threads, steps), t, size, max);
  }

  /** With every thread idle that is the documented test: a writer evicts nothing when its entry fits. */
  lemma QuietWriterEvictsNothing(threads: nat, steps: seq<Step>, t: nat, size: nat, max: nat)
    requires var s := Run(threads, steps);
             && t < |s.threads| && (forall u :: 0 <= u < |s.threads| ==> s.threads[u].Idle?)
             && ByteSum(s.deque) + size <= max < TWO_64
    ensures MakeRoom(Run(threads, steps), t, size, max).deque == Run(threads, steps).deque
  {
    var s := Run(threads, steps);
    CounterExactIff(threads, steps);
    FitsIsNotFull(s, size, max);
    MakeRoomOnlyEvicts(s, t, size, max);
  }

  lemma FitsIsNotFull(s: State, size: nat, max: nat)
    requires s.counter + size <= max < TWO_64
    ensures !Full(s, size, max)
  {
  }

  lemma EvictsFrontWithoutWrap(s: State, t: nat)
    requires t < |s.threads| && s.threads[t].Idle? && s.deque != [] && s.deque[0] <= s.counter < TWO_64
    ensures EvictOldest(s, t) == State(s.deque[1..], s.counter - s.deque[0], s.threads)
  {
    EvictsFront(s, t);
  }

  /** A counter so far above the bytes in the deque that the test would fail even without them empties the deque. */
  lemma {:induction false} OverstatedEvictsAll(s: State, t: nat, size: nat, max: nat)
    requires t < |s.threads| && s.threads[t].Idle?
    requires s.counter + size < TWO_64 && s.counter + size - ByteSum(s.deque) > max && s.counter >= ByteSum(s.deque)
    ensures MakeRoom(s, t, size, max).deque == []
    decreases |s.deque|
  {
    if s.deque != [] {
      SumTail(s.deque);
      EvictsFrontWithoutWrap(s, t);
      OverstatedEvictsAll(EvictOldest(s, t), t, size, max);
    }
  }

  /**
   So a wrapped counter makes a writer throw everything away: a big entry is read before its size is added, a small one
   is written whole, and a writer whose own entry would fit beside it many times over evicts it.
   */
  lemma WrapEvictsAll(big: nat, small: nat, size: nat, max: nat)
    requires small + size <= max && small + size < big && big + max < TWO_64
    ensures var s := Run(4, [Push(0, big), Remove(1, {0}), SubtractFromCounter(1), Push(2, small), AddToCounter(2)]);
            && s.threads == [Adding(big), Idle, Idle, Idle] && s.deque == [small]
            && MakeRoom(s, 3, size, max).deque == []
  {
    RunFive(4, Push(0, big), Remove(1, {0}), SubtractFromCounter(1), Push(2, small), AddToCounter(2));
    SubtractFirst(4, big);
    SecondWriter(big, small);
    SumOfOne(small);
    OverstatedEvictsAll(State([small], TWO_64 - big + small, [Adding(big), Idle, Idle, Idle]), 3, size, max);
  }

  lemma RunFive(threads: nat, k: Step, l: Step, m: Step, n: Step, o: Step)
    ensures Run(threads, [k, l, m, n, o]) == Next(Next(Next(Next(Next(Start(threads), k), l), m), n), o)
  {
    RunThree(threads, k, l, m);
    RunSnoc(threads, [k, l, m], n);
    RunSnoc(threads, [k, l, m, n], o);
    assert [k, l, m] + [n] == [k, l, m, n] && [k, l, m, n] + [o] == [k, l, m, n, o];
  }

  lemma SecondWriter(big: nat, small: nat)
    requires 0 < big < TWO_64 && small < big
    ensures Next(Next(State([], TWO_64 - big, Start(4).threads[0 := Adding(big)]), Push(2, small)), AddToCounter(2))
         == State([small], TWO_64 - big + small, [Adding(big), Idle, Idle, Idle])
  {
    var s := State([], TWO_64 - big, Start(4).threads[0 := Adding(big)]);
    assert s.threads == [Adding(big), Idle, Idle, Idle] && [] + [small] == [small];
    assert s.threads[2 := Adding(small)][2 := Idle] == s.threads;
  }
}
