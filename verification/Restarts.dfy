/**
 A buffer opened again on the same database, any number of times: its memory is gone, the rows of the table are
 not, and numbering starts over at 1. When a number still names one entry only, and when nothing is lost.
 */
module Restarts {
  import opened Basics
  import opened EdgeBufferModel
  import opened EdgeBufferLemmas
  import opened DeliveryRuns
  import opened FlushGuarantees

  function Reopened(b: Buffer): Buffer {
    b.(nextSeq := 1, mem := [])
  }

  /** A life that begins on the rows `b` left behind. */
  function Life(b: Buffer, acts: seq<Action>): System {
    if acts == [] then System(Reopened(b), [], [], [], [], [], [])
    else Step(Life(b, acts[..|acts| - 1]), acts[|acts| - 1])
  }

  // ---- The table ------------------------------------------------------------------

  /** Rows stand in the order of their ids, all of them handed out before. */
  ghost predicate TableOk(b: Buffer) {
    IdsAscend(b.rows) && forall r :: r in b.rows ==> r.id < b.nextRowId
  }

  lemma AppendAscend(rows: seq<Row>, r: Row)
    requires IdsAscend(rows) && forall x :: x in rows ==> x.id < r.id
    ensures IdsAscend(rows + [r])
  {
  }

  lemma SameIdsOk(b: Buffer, rows: seq<Row>)
    requires TableOk(b) && |rows| == |b.rows| && forall i :: 0 <= i < |rows| ==> rows[i].id == b.rows[i].id
    ensures TableOk(b.(rows := rows))
  {
    forall r | r in rows
      ensures r.id < b.nextRowId
    {
      var i :| 0 <= i < |rows| && rows[i] == r;
      assert b.rows[i] in b.rows;
    }
  }

  lemma PlaceTableOk(x: Buffer, e: Entry, wall: int, spillOk: bool)
    requires TableOk(x)
    ensures TableOk(Place(x, e, wall, spillOk))
  {
    AppendAscend(x.rows, Row(x.nextRowId, e.seqNo, e.data, e.dataType.Name(), 2, wall, 0, false));
  }

  lemma ExpireTableOk(b: Buffer, now: nat, wall: int)
    requires TableOk(b)
    ensures TableOk(Expire(b, now, wall))
  {
    AgedAscend(b.rows, Cutoff(b.cfg, wall), false);
  }

  lemma StepTableOk(s: System, a: Action)
    requires TableOk(s.buf)
    ensures TableOk(Step(s, a).buf)
  {
    var b := s.buf;
    match a
    case DoWrite(data, t, c, spillOk) =>
      ExpireTableOk(b, c.now, c.wall);
      PlaceTableOk(Expire(b, c.now, c.wall).(nextSeq := b.nextSeq + 1),
                   Entry(b.nextSeq, c.created, data, t, None), c.spillWall, spillOk);
    case DoFlush(ok) => SameIdsOk(b, Acknowledge(b.rows, Batch(b.rows), |b.mem|, FlushCount(b, ok)));
    case _ =>
  }

  lemma {:induction false} LifeTableOk(b: Buffer, acts: seq<Action>)
    requires TableOk(b)
    ensures TableOk(Life(b, acts).buf)
  {
    if acts != [] {
      LifeTableOk(b, acts[..|acts| - 1]);
      StepTableOk(Life(b, acts[..|acts| - 1]), acts[|acts| - 1]);
    }
  }

  // ---- Conservation -----------------------------------------------------------------

  /** How often `n` is anywhere. */
  function Everywhere(s: System, n: nat): nat {
    Held(s.buf, n) + Gone(s, n)
  }

  /**
   Over every life on any table: a number is as often somewhere as it was handed out in this life and carried by
   a row that was still to be sent when it began.
   */
  lemma {:induction false} LifeConserves(b: Buffer, acts: seq<Action>, n: nat)
    requires TableOk(b)
    ensures Life(b, acts).buf.nextSeq == 1 + Writes(acts)
    ensures Everywhere(Life(b, acts), n) == Due(n, Writes(acts)) + PendingCount(b.rows, n)
  {
    if acts == [] {
      MemoryEmptied(Reopened(b), n);
    } else {
      var before := acts[..|acts| - 1];
      LifeConserves(b, before, n);
      LifeTableOk(b, before);
      IncreasingIdsDistinct(Life(b, before).buf.rows);
      StepConserves(Life(b, before), acts[|acts| - 1], n);
    }
  }

  // ---- Any number of lives ------------------------------------------------------------

  /** The last of several lives, each on the rows the one before left behind. */
  function Lives(cfg: Config, lives: seq<seq<Action>>): System {
    if lives == [] then Start(cfg)
    else Life(Lives(cfg, lives[..|lives| - 1]).buf, lives[|lives| - 1])
  }

  /** The numbers that left as they should, in all lives so far. */
  function AllKept(cfg: Config, lives: seq<seq<Action>>): seq<nat> {
    if lives == [] then []
    else
      var s := Lives(cfg, lives);
      AllKept(cfg, lives[..|lives| - 1]) + (s.delivered + s.taken + s.expired + s.deleted)
  }

  /** The numbers lost in all lives so far; what a life has in memory when it ends is lost as the next one begins. */
  function AllLost(cfg: Config, lives: seq<seq<Action>>): seq<nat> {
    if lives == [] then []
    else
      var before := lives[..|lives| - 1];
      var s := Lives(cfg, lives);
      AllLost(cfg, before) + (Nums(Lives(cfg, before).buf.mem) + s.displaced + s.dropped)
  }

  /** How often `n` was handed out. */
  function HandedOut(lives: seq<seq<Action>>, n: nat): nat {
    if lives == [] then 0
    else HandedOut(lives[..|lives| - 1], n) + Due(n, Writes(lives[|lives| - 1]))
  }

  /** How often `n` is still held or has left as it should, in any of the lives. */
  function Somewhere(cfg: Config, lives: seq<seq<Action>>, n: nat): nat {
    Held(Lives(cfg, lives).buf, n) + Count(AllKept(cfg, lives), n)
  }

  /** How many entries there ever were with number `n`. */
  function Named(cfg: Config, lives: seq<seq<Action>>, n: nat): nat {
    Somewhere(cfg, lives, n) + Count(AllLost(cfg, lives), n)
  }

  /** A restart forgets exactly what was in memory. */
  lemma RestartLosesMemory(b: Buffer, n: nat)
    ensures Held(b, n) - Held(Reopened(b), n) == Count(Nums(b.mem), n)
  {
    MemoryEmptied(Reopened(b), n);
  }

  lemma CountFour(a: seq<nat>, b: seq<nat>, c: seq<nat>, d: seq<nat>, n: nat)
    ensures Count(a + b + c + d, n) == Count(a, n) + Count(b, n) + Count(c, n) + Count(d, n)
  {
    CountConcat(a, b, n);
    CountConcat(a + b, c, n);
    CountConcat(a + b + c, d, n);
  }

  /** What one more life adds to what was kept and what was lost. */
  lemma OneMoreLife(cfg: Config, lives: seq<seq<Action>>, n: nat)
    requires lives != []
    ensures var before, s := lives[..|lives| - 1], Lives(cfg, lives);
            && Count(AllKept(cfg, lives), n) == Count(AllKept(cfg, before), n) + Kept(s, n)
            && Count(AllLost(cfg, lives), n)
               == Count(AllLost(cfg, before), n) + Count(Nums(Lives(cfg, before).buf.mem), n) + Lost(s, n)
  {
    var before, s := lives[..|lives| - 1], Lives(cfg, lives);
    var mem := Nums(Lives(cfg, before).buf.mem);
    CountFour(s.delivered, s.taken, s.expired, s.deleted, n);
    CountConcat(AllKept(cfg, before), s.delivered + s.taken + s.expired + s.deleted, n);
    CountConcat(mem, s.displaced, n);
    CountConcat(mem + s.displaced, s.dropped, n);
    CountConcat(AllLost(cfg, before), mem + s.displaced + s.dropped, n);
  }

  lemma {:induction false} FirstLifeIsRun(cfg: Config, acts: seq<Action>)
    ensures Life(Empty(cfg), acts) == Run(cfg, acts)
  {
    if acts != [] {
      FirstLifeIsRun(cfg, acts[..|acts| - 1]);
    }
  }

  /** The first life is a run as it is elsewhere. */
  lemma OneLife(cfg: Config, acts: seq<Action>)
    ensures Lives(cfg, [acts]) == Life(Empty(cfg), acts) == Run(cfg, acts)
  {
    FirstLifeIsRun(cfg, acts);
    assert [acts][..0] == [];
  }

  lemma {:induction false} LivesTableOk(cfg: Config, lives: seq<seq<Action>>)
    ensures TableOk(Lives(cfg, lives).buf)
  {
    if lives != [] {
      LivesTableOk(cfg, lives[..|lives| - 1]);
      LifeTableOk(Lives(cfg, lives[..|lives| - 1]).buf, lives[|lives| - 1]);
    }
  }

  /**
   Over any number of lives there are exactly as many entries with a number as there were writes that handed
   it out.
   */
  lemma {:induction false} EveryLifeAccountedFor(cfg: Config, lives: seq<seq<Action>>, n: nat)
    ensures Named(cfg, lives, n) == HandedOut(lives, n)
  {
    if lives != [] {
      var before := lives[..|lives| - 1];
      EveryLifeAccountedFor(cfg, before, n);
      LivesTableOk(cfg, before);
      LifeConserves(Lives(cfg, before).buf, lives[|lives| - 1], n);
      OneMoreLife(cfg, lives, n);
    }
  }

  // ---- When numbers are unique ------------------------------------------------------------

  /** Two lives both get to `n`. */
  ghost predicate HandedOutTwice(lives: seq<seq<Action>>, n: nat) {
    exists i, j :: 0 <= i < j < |lives| && 1 <= n <= Writes(lives[i]) && n <= Writes(lives[j])
  }

  lemma {:induction false} HandedOutIff(lives: seq<seq<Action>>, n: nat)
    ensures HandedOut(lives, n) >= 1 <==> exists i :: 0 <= i < |lives| && 1 <= n <= Writes(lives[i])
  {
    if lives != [] {
      var m := |lives| - 1;
      var before := lives[..m];
      HandedOutIff(before, n);
      assert forall i :: 0 <= i < m ==> before[i] == lives[i];
    }
  }

  lemma TwiceSnoc(lives: seq<seq<Action>>, n: nat)
    requires lives != []
    ensures var before, last := lives[..|lives| - 1], lives[|lives| - 1];
            HandedOutTwice(lives, n)
            <==> HandedOutTwice(before, n) || (HandedOut(before, n) >= 1 && 1 <= n <= Writes(last))
  {
    var m := |lives| - 1;
    var before := lives[..m];
    HandedOutIff(before, n);
    assert forall i :: 0 <= i < m ==> before[i] == lives[i];
  }

  lemma {:induction false} HandedOutTwiceIff(lives: seq<seq<Action>>, n: nat)
    ensures HandedOut(lives, n) <= 1 <==> !HandedOutTwice(lives, n)
  {
    if lives != [] {
      var before := lives[..|lives| - 1];
      HandedOutTwiceIff(before, n);
      HandedOutIff(before, n);
      TwiceSnoc(lives, n);
    }
  }

  /**
   Sequence numbers are documented as unique. Over any number of lives a number names one entry at most, among all
   there ever were, if and only if no two lives get to it.
   */
  lemma UniqueOverLivesIff(cfg: Config, lives: seq<seq<Action>>, n: nat)
    ensures Named(cfg, lives, n) <= 1 <==> !HandedOutTwice(lives, n)
  {
    EveryLifeAccountedFor(cfg, lives, n);
    HandedOutTwiceIff(lives, n);
  }

  /** All numbers are unique exactly when at most one of the lives writes anything. */
  lemma AllUniqueOverLivesIff(cfg: Config, lives: seq<seq<Action>>)
    ensures (forall n :: Named(cfg, lives, n) <= 1)
       <==> forall i, j :: 0 <= i < j < |lives| ==> Writes(lives[i]) == 0 || Writes(lives[j]) == 0
  {
    forall n
      ensures Named(cfg, lives, n) <= 1 <==> !HandedOutTwice(lives, n)
    {
      UniqueOverLivesIff(cfg, lives, n);
    }
    if forall n :: Named(cfg, lives, n) <= 1 {
      assert Named(cfg, lives, 1) <= 1;
    } else {
      var n :| Named(cfg, lives, n) > 1;
      assert HandedOutTwice(lives, n);
    }
  }

  /** One write and one flush, in both lives: two entries with number 1 are delivered. No table is needed. */
  lemma DeliveredInBothLives(x: byte, t: DataType, c: Clock, ok: nat -> bool)
    requires ok(0)
    ensures var cfg, acts := Config(1, 0, false), [DoWrite([x], t, c, true), DoFlush(ok)];
            Lives(cfg, [acts]).delivered == [1] && Lives(cfg, [acts, acts]).delivered == [1]
            && Count(AllKept(cfg, [acts, acts]), 1) == 2
  {
    var cfg, acts := Config(1, 0, false), [DoWrite([x], t, c, true), DoFlush(ok)];
    OneLife(cfg, acts);
    LivesTwo(cfg, acts, acts);
    WriteAndFlush(Empty(cfg), x, t, c, ok);
    WriteAndFlush(Lives(cfg, [acts]).buf, x, t, c, ok);
    OneMoreLife(cfg, [acts], 1);
    OneMoreLife(cfg, [acts, acts], 1);
    CountCons(1, [], 1);
    assert [acts][..0] == [] && [acts, acts][..1] == [acts] && [1] + [] == [1];
  }


  lemma LivesTwo(cfg: Config, first: seq<Action>, second: seq<Action>)
    ensures Lives(cfg, [first, second]) == Life(Lives(cfg, [first]).buf, second)
  {
    assert [first, second][..1] == [first];
  }

  lemma WriteFits(b: Buffer, x: byte, t: DataType, c: Clock)
    requires b.cfg == Config(1, 0, false) && b.mem == []
    ensures Write(b, [x], t, c, true)
         == b.(nextSeq := b.nextSeq + 1, mem := [Entry(b.nextSeq, c.created, [x], t, None)])
  {
    assert Bytes([]) == 0;
  }

  lemma FlushOne(s: System, e: Entry, ok: nat -> bool)
    requires s.buf.mem == [e] && s.buf.rows == [] && ok(0)
    ensures Step(s, DoFlush(ok))
         == s.(buf := s.buf.(mem := []), delivered := s.delivered + [e.seqNo], dropped := s.dropped + [])
  {
    assert OrderBy(Pending([])) == [] && FlushCount(s.buf, ok) == 1;
    assert Nums([e]) == [e.seqNo];
  }

  lemma LifeSnoc(b: Buffer, before: seq<Action>, a: Action)
    ensures Life(b, before + [a]) == Step(Life(b, before), a)
  {
    assert (before + [a])[..|before|] == before;
  }

  lemma TwoSteps(b: Buffer, k: Action, l: Action)
    ensures Life(b, [k, l]) == Step(Step(System(Reopened(b), [], [], [], [], [], []), k), l)
  {
    LifeSnoc(b, [], k);
    LifeSnoc(b, [k], l);
    assert [] + [k] == [k] && [k] + [l] == [k, l];
  }

  lemma WriteAndFlush(b: Buffer, x: byte, t: DataType, c: Clock, ok: nat -> bool)
    requires b.cfg == Config(1, 0, false) && b.rows == [] && ok(0)
    ensures Life(b, [DoWrite([x], t, c, true), DoFlush(ok)])
         == System(Reopened(b).(nextSeq := 2), [1], [], [], [], [], [])
  {
    var e := Entry(1, c.created, [x], t, None);
    TwoSteps(b, DoWrite([x], t, c, true), DoFlush(ok));
    WriteFits(Reopened(b), x, t, c);
    var written := System(Reopened(b).(nextSeq := 2, mem := [e]), [], [], [], [], [], []);
    assert Step(System(Reopened(b), [], [], [], [], [], []), DoWrite([x], t, c, true)) == written by {
      assert Nums([]) == [] && Bytes([]) == 0;
    }
    FlushOne(written, e, ok);
  }

  // ---- When nothing is lost ---------------------------------------------------------------

  /** Every step of a life is careful. */
  ghost predicate CarefulLife(b: Buffer, acts: seq<Action>) {
    acts != [] ==>
      var n := |acts| - 1;
      CarefulLife(b, acts[..n]) && Careful(Life(b, acts[..n]).buf, acts[n])
  }

  lemma {:induction false} LifeLosesIff(b: Buffer, acts: seq<Action>)
    ensures NothingLost(Life(b, acts)) <==> CarefulLife(b, acts)
  {
    if acts != [] {
      var n := |acts| - 1;
      LifeLosesIff(b, acts[..n]);
      StepLosesIff(Life(b, acts[..n]), acts[n]);
    }
  }

  /** The `i`-th life finds memory emptied before the restart and takes only careful steps. */
  ghost predicate CarefulFrom(cfg: Config, lives: seq<seq<Action>>, i: nat)
    requires i < |lives|
  {
    var b := Lives(cfg, lives[..i]).buf;
    b.mem == [] && CarefulLife(b, lives[i])
  }

  ghost predicate AllLivesCareful(cfg: Config, lives: seq<seq<Action>>) {
    forall i :: 0 <= i < |lives| ==> CarefulFrom(cfg, lives, i)
  }

  lemma AllLivesCarefulSnoc(cfg: Config, lives: seq<seq<Action>>)
    requires lives != []
    ensures var m := |lives| - 1;
            AllLivesCareful(cfg, lives) <==> AllLivesCareful(cfg, lives[..m]) && CarefulFrom(cfg, lives, m)
  {
    var m := |lives| - 1;
    forall i | 0 <= i < m
      ensures CarefulFrom(cfg, lives[..m], i) <==> CarefulFrom(cfg, lives, i)
    {
      assert lives[..m][..i] == lives[..i] && lives[..m][i] == lives[i];
    }
  }

  lemma {:induction false} AllLostIff(cfg: Config, lives: seq<seq<Action>>)
    ensures AllLost(cfg, lives) == [] <==> AllLivesCareful(cfg, lives)
  {
    if lives != [] {
      var m := |lives| - 1;
      var b := Lives(cfg, lives[..m]).buf;
      AllLostIff(cfg, lives[..m]);
      LifeLosesIff(b, lives[m]);
      AllLivesCarefulSnoc(cfg, lives);
      assert |Nums(b.mem)| == |b.mem|;
    }
  }

  lemma AllThereIff(there: nat -> nat, due: nat -> nat, lost: seq<nat>)
    requires forall n :: there(n) + Count(lost, n) == due(n)
    ensures (forall n :: there(n) == due(n)) <==> lost == []
  {
    if lost != [] {
      CountedIff(lost, lost[0]);
      assert there(lost[0]) < due(lost[0]);
    }
  }

  /**
   The promise of no data loss over any number of lives: every entry written is still held, or was delivered, read
   out, expired or deleted, if and only if every step of every life is careful and every restart finds memory empty.
   */
  lemma NoDataLossOverLivesIff(cfg: Config, lives: seq<seq<Action>>)
    ensures (forall n :: Somewhere(cfg, lives, n) == HandedOut(lives, n)) <==> AllLivesCareful(cfg, lives)
  {
    forall n
      ensures Somewhere(cfg, lives, n) + Count(AllLost(cfg, lives), n) == HandedOut(lives, n)
    {
      EveryLifeAccountedFor(cfg, lives, n);
    }
    AllThereIff((n: nat) => Somewhere(cfg, lives, n), (n: nat) => HandedOut(lives, n), AllLost(cfg, lives));
    AllLostIff(cfg, lives);
  }

  // ---- A second life and what it inherits --------------------------------------------------

  lemma RunLeaves(cfg: Config, acts: seq<Action>, n: nat)
    ensures TableOk(Run(cfg, acts).buf)
    ensures PendingCount(Run(cfg, acts).buf.rows, n) + Count(Run(cfg, acts).delivered, n) <= Due(n, Writes(acts))
  {
    var s := Run(cfg, acts);
    RunInv(cfg, acts);
    InOrderDistinct(s.buf.rows, false);
    EveryNumberInExactlyOnePlace(cfg, acts, n);
  }

  /** Number `n` is carried by a row that outlives the first life, and the second life comes to hand it out as well. */
  ghost predicate Reused(b: Buffer, second: seq<Action>, n: nat) {
    1 <= n <= Writes(second) && PendingCount(b.rows, n) >= 1
  }

  /**
   Among what the second life inherits, holds and lets go, a number names one entry at most if and only if it is not
   both carried over by an unsent row and handed out again.
   */
  lemma UniqueInSecondLifeIff(cfg: Config, first: seq<Action>, second: seq<Action>, n: nat)
    ensures var b := Run(cfg, first).buf;
            Everywhere(Life(b, second), n) <= 1 <==> !Reused(b, second, n)
  {
    RunLeaves(cfg, first, n);
    LifeConserves(Run(cfg, first).buf, second, n);
  }

  /** There all numbers are unique exactly when no unsent row carries one that the second life gets to. */
  lemma AllUniqueInSecondLifeIff(cfg: Config, first: seq<Action>, second: seq<Action>)
    ensures var b := Run(cfg, first).buf;
            (forall n :: Everywhere(Life(b, second), n) <= 1)
            <==> forall r :: r in Pending(b.rows) ==> r.seqNo == 0 || r.seqNo > Writes(second)
  {
    var b := Run(cfg, first).buf;
    forall n
      ensures Everywhere(Life(b, second), n) <= 1 <==> !Reused(b, second, n)
      ensures PendingCount(b.rows, n) >= 1 <==> exists r :: r in Pending(b.rows) && r.seqNo == n
    {
      UniqueInSecondLifeIff(cfg, first, second, n);
      CarriedIff(Pending(b.rows), n);
    }
    forall r | r in Pending(b.rows)
      ensures PendingCount(b.rows, r.seqNo) >= 1
    {
      CarriedIff(Pending(b.rows), r.seqNo);
    }
    if forall r :: r in Pending(b.rows) ==> r.seqNo == 0 || r.seqNo > Writes(second) {
      forall n ensures Everywhere(Life(b, second), n) <= 1 {
        assert !Reused(b, second, n);
      }
    }
    if forall n :: Everywhere(Life(b, second), n) <= 1 {
      forall r | r in Pending(b.rows) ensures r.seqNo == 0 || r.seqNo > Writes(second) {
        assert Everywhere(Life(b, second), r.seqNo) <= 1;
      }
    }
  }

  /** Over both lives a number is delivered at most as often as it was handed out. */
  lemma DeliveredAcrossRestart(cfg: Config, first: seq<Action>, second: seq<Action>, n: nat)
    ensures var s, t := Run(cfg, first), Life(Run(cfg, first).buf, second);
            && Count(t.delivered, n) <= Due(n, Writes(second)) + PendingCount(s.buf.rows, n)
            && Count(s.delivered, n) + Count(t.delivered, n) <= Due(n, Writes(first)) + Due(n, Writes(second))
  {
    RunLeaves(cfg, first, n);
    LifeConserves(Run(cfg, first).buf, second, n);
  }

  /** A write to an empty memory that can hold nothing goes to the table. */
  lemma SpillsAtOnce(b: Buffer, x: byte, t: DataType, c: Clock)
    requires b.cfg.persistent && b.cfg.maxBytes == 0 && b.mem == []
    ensures var w := Write(b, [x], t, c, true);
            && w.mem == [] && w.cfg == b.cfg && w.nextSeq == b.nextSeq + 1
            && w.rows == Aged(b.rows, Cutoff(b.cfg, c.wall), false)
                         + [Row(b.nextRowId, b.nextSeq, [x], t.Name(), 2, c.spillWall, 0, false)]
  {
    assert Bytes([]) == 0;
  }

  lemma OneStep(b: Buffer, cfg: Config, a: Action)
    ensures Run(cfg, [a]) == Step(Start(cfg), a)
    ensures Life(b, [a]).buf == Step(Life(b, []), a).buf
    ensures Writes([a]) == if a.DoWrite? then 1 else 0
  {
    assert [a][..0] == [] && [a][0] == a;
  }

  /**
   Such lives: an entry too large for memory goes to the table; the restart comes, and the same write again.
   Both are number 1.
   */
  lemma RestartReusesNumbers(x: byte, t: DataType, c: Clock, ttl: nat)
    requires c.wall - ttl / NANOS_PER_SECOND <= c.spillWall
    ensures var cfg, acts := Config(0, ttl, true), [DoWrite([x], t, c, true)];
            var b := Run(cfg, acts).buf;
            && Reused(b, acts, 1) && Held(Life(b, acts).buf, 1) == 2
  {
    var cfg, act := Config(0, ttl, true), DoWrite([x], t, c, true);
    var r := Row(1, 1, [x], t.Name(), 2, c.spillWall, 0, false);
    var b := Run(cfg, [act]).buf;
    OneStep(b, cfg, act);
    SpillsAtOnce(Empty(cfg), x, t, c);
    assert b.rows == [] + [r] == [r];
    SpillCount([], r, 1);
    SpillsAtOnce(Reopened(b), x, t, c);
    assert Aged([r], Cutoff(cfg, c.wall), false) == [r] by {
      assert [r][1..] == [];
    }
    var again := Life(b, [act]).buf;
    SpillCount([r], Row(b.nextRowId, 1, [x], t.Name(), 2, c.spillWall, 0, false), 1);
    MemoryEmptied(again, 1);
  }
}
