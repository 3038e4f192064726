/** Inserting a computed segment between every two consecutive elements of a sequence. */
module Weaving {

  /** `ps` with `between(ps[i], ps[i + 1])` put after each `ps[i]` but the last. */
  function Weave<T>(ps: seq<T>, between: (T, T) -> seq<T>): seq<T> {
    if |ps| < 2 then ps else [ps[0]] + (between(ps[0], ps[1]) + Weave(ps[1..], between))
  }

  /** Where the i-th original element ends up. */
  function Position<T>(ps: seq<T>, between: (T, T) -> seq<T>, i: nat): (p: nat)
    requires i < |ps|
  {
    if i == 0 then 0 else 1 + |between(ps[0], ps[1])| + Position(ps[1..], between, i - 1)
  }

  lemma Shift<T>(ps: seq<T>, between: (T, T) -> seq<T>, k: nat)
    requires |ps| > 1 && k < |Weave(ps[1..], between)|
    ensures var n := |between(ps[0], ps[1])|;
            n + 1 + k < |Weave(ps, between)| && Weave(ps, between)[n + 1 + k] == Weave(ps[1..], between)[k]
  {
  }

  /** Every original element is kept, in order, at its position, and the last is the last. */
  lemma {:induction false} OriginalKept<T>(ps: seq<T>, between: (T, T) -> seq<T>, i: nat)
    requires i < |ps|
    ensures Position(ps, between, i) < |Weave(ps, between)| && Weave(ps, between)[Position(ps, between, i)] == ps[i]
    ensures i + 1 == |ps| ==> Position(ps, between, i) + 1 == |Weave(ps, between)|
  {
    if i > 0 {
      OriginalKept(ps[1..], between, i - 1);
      Shift(ps, between, Position(ps[1..], between, i - 1));
      if i + 1 == |ps| {
        assert |Weave(ps, between)| == 1 + |between(ps[0], ps[1])| + |Weave(ps[1..], between)|;
      }
    }
  }

  lemma {:induction false} NextPosition<T>(ps: seq<T>, between: (T, T) -> seq<T>, i: nat)
    requires i + 1 < |ps|
    ensures Position(ps, between, i + 1) == Position(ps, between, i) + |between(ps[i], ps[i + 1])| + 1
  {
    if i > 0 {
      NextPosition(ps[1..], between, i - 1);
    }
  }

  /** Between two originals stands exactly their segment. */
  lemma {:induction false} SegmentKept<T>(ps: seq<T>, between: (T, T) -> seq<T>, i: nat, j: nat)
    requires i + 1 < |ps| && j < |between(ps[i], ps[i + 1])|
    ensures Position(ps, between, i) + 1 + j < |Weave(ps, between)|
    ensures Weave(ps, between)[Position(ps, between, i) + 1 + j] == between(ps[i], ps[i + 1])[j]
  {
    if i > 0 {
      SegmentKept(ps[1..], between, i - 1, j);
      Shift(ps, between, Position(ps[1..], between, i - 1) + 1 + j);
    }
  }

  /** Every place but the last is in some gap: at its left end or in its segment. */
  lemma {:induction false} Locate<T>(ps: seq<T>, between: (T, T) -> seq<T>, k: nat) returns (i: nat, j: nat)
    requires k + 1 < |Weave(ps, between)|
    ensures i + 1 < |ps| && j <= |between(ps[i], ps[i + 1])|
    ensures k == Position(ps, between, i) + j
  {
    var n := |between(ps[0], ps[1])|;
    if k <= n {
      i, j := 0, k;
    } else {
      i, j := Locate(ps[1..], between, k - n - 1);
      i := i + 1;
    }
  }

  lemma {:induction false} NeverShorter<T>(ps: seq<T>, between: (T, T) -> seq<T>)
    ensures |Weave(ps, between)| >= |ps|
  {
    if |ps| >= 2 {
      NeverShorter(ps[1..], between);
    }
  }

  lemma {:induction false} EmptySegmentsKeep<T>(ps: seq<T>, between: (T, T) -> seq<T>)
    requires forall i :: 0 <= i < |ps| - 1 ==> between(ps[i], ps[i + 1]) == []
    ensures Weave(ps, between) == ps
  {
    if |ps| >= 2 {
      var tail := ps[1..];
      forall i | 0 <= i < |tail| - 1 ensures between(tail[i], tail[i + 1]) == [] {
        assert between(ps[i + 1], ps[i + 1 + 1]) == [];
      }
      EmptySegmentsKeep(tail, between);
    }
  }

  lemma {:induction false} SegmentLengthens<T>(ps: seq<T>, between: (T, T) -> seq<T>, i: nat)
    requires i + 1 < |ps| && between(ps[i], ps[i + 1]) != []
    ensures |Weave(ps, between)| > |ps|
  {
    if i > 0 {
      SegmentLengthens(ps[1..], between, i - 1);
    } else {
      NeverShorter(ps[1..], between);
    }
  }

  /** Nothing changes exactly when every segment is empty. */
  lemma UnchangedIff<T>(ps: seq<T>, between: (T, T) -> seq<T>)
    ensures Weave(ps, between) == ps <==> forall i :: 0 <= i < |ps| - 1 ==> between(ps[i], ps[i + 1]) == []
  {
    if i :| 0 <= i < |ps| - 1 && between(ps[i], ps[i + 1]) != [] {
      SegmentLengthens(ps, between, i);
    } else {
      EmptySegmentsKeep(ps, between);
    }
  }

  /** One step of building the result from the left. */
  lemma Step<T>(done: seq<T>, ps: seq<T>, i: nat, between: (T, T) -> seq<T>)
    requires i < |ps|
    ensures i + 1 == |ps| ==> done + Weave(ps[i..], between) == done + [ps[i]]
    ensures i + 1 < |ps| ==>
              done + Weave(ps[i..], between)
              == ((done + [ps[i]]) + between(ps[i], ps[i + 1])) + Weave(ps[i + 1..], between)
  {
    assert ps[i..][1..] == ps[i + 1..];
  }
}
