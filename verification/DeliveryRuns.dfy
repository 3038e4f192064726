/**
 Whole runs of the edge buffer and its flush loop: where every sequence number
 handed out by a write ends up, what stays in memory, and in which order rows leave.
 */
module DeliveryRuns {
  import opened Basics
  import opened EdgeBufferModel
  import opened EdgeBufferLemmas

  /** The buffer together with the numbers that have left it, by how they left. */
  datatype System = System(
    buf: Buffer, delivered: seq<nat>, expired: seq<nat>, displaced: seq<nat>,
    deleted: seq<nat>, dropped: seq<nat>, taken: seq<nat>)

  /** `ok(i)` is the answer of the i-th send of that flush. */
  datatype Action =
    | DoWrite(data: seq<byte>, dataType: DataType, clock: Clock, spillOk: bool)
    | DoRead(count: nat)
    | DoDrainByType(t: DataType)
    | DoDeleteAll
    | DoFlush(ok: nat -> bool)

  function Start(cfg: Config): System {
    System(Empty(cfg), [], [], [], [], [], [])
  }

  function Step(s: System, a: Action): System {
    var b := s.buf;
    match a
    case DoWrite(data, t, c, spillOk) =>
      s.(buf := Write(b, data, t, c, spillOk),
         expired := s.expired + ExpiredOut(b, c.now, c.wall),
         displaced := s.displaced + Displaced(b, data, c, spillOk))
    case DoRead(count) =>
      s.(buf := Read(b, count), taken := s.taken + Nums(b.mem[..Min(count, |b.mem|)]))
    case DoDrainByType(t) =>
      s.(buf := DrainByType(b, t), taken := s.taken + Nums(OfType(b.mem, t, true)))
    case DoDeleteAll =>
      s.(buf := DeleteAll(b), deleted := s.deleted + Nums(b.mem) + RowNums(Pending(b.rows)))
    case DoFlush(ok) =>
      s.(buf := Flush(b, ok),
         delivered := s.delivered + FlushDelivered(b, ok),
         dropped := s.dropped + FlushDropped(b, ok))
  }

  function Run(cfg: Config, acts: seq<Action>): System {
    if acts == [] then Start(cfg) else Step(Run(cfg, acts[..|acts| - 1]), acts[|acts| - 1])
  }

  function Writes(acts: seq<Action>): nat {
    if acts == [] then 0
    else Writes(acts[..|acts| - 1]) + if acts[|acts| - 1].DoWrite? then 1 else 0
  }

  // ---- What every step keeps --------------------------------------------------

  /** Row `a` was spilled before row `b`; with `clocked`, the wall clock agrees. */
  ghost predicate Before(a: Row, b: Row, clocked: bool) {
    a.id < b.id && a.seqNo < b.seqNo && (clocked ==> Precedes(a, b))
  }

  ghost predicate InOrder(rows: seq<Row>, clocked: bool) {
    forall i, j :: 0 <= i < j < |rows| ==> Before(rows[i], rows[j], clocked)
  }

  ghost predicate Rising(xs: seq<nat>) {
    forall i, j :: 0 <= i < j < |xs| ==> xs[i] < xs[j]
  }

  ghost predicate Inv(b: Buffer, clocked: bool) {
    && InOrder(b.rows, clocked)
    && (forall r :: r in b.rows ==> r.id < b.nextRowId && r.seqNo < b.nextSeq && r.priority == 2)
    && (b.rows != [] ==> b.cfg.persistent)
    && Rising(Nums(b.mem))
    && (forall e :: e in b.mem ==> e.seqNo < b.nextSeq && e.rowId == None)
  }

  lemma TailInOrder(rows: seq<Row>, clocked: bool)
    requires rows != [] && InOrder(rows, clocked)
    ensures InOrder(rows[1..], clocked)
    ensures forall r :: r in rows[1..] ==> r in rows && Before(rows[0], r, clocked)
  {
  }

  lemma PrependInOrder(r: Row, rows: seq<Row>, clocked: bool)
    requires InOrder(rows, clocked)
    requires forall x :: x in rows ==> Before(r, x, clocked)
    ensures InOrder([r] + rows, clocked)
  {
  }

  lemma {:induction false} AgedInOrder(rows: seq<Row>, cutoff: int, aged: bool, clocked: bool)
    requires InOrder(rows, clocked)
    ensures InOrder(Aged(rows, cutoff, aged), clocked)
    ensures forall r :: r in Aged(rows, cutoff, aged) ==> r in rows
  {
    if rows != [] {
      TailInOrder(rows, clocked);
      AgedInOrder(rows[1..], cutoff, aged, clocked);
      PrependInOrder(rows[0], Aged(rows[1..], cutoff, aged), clocked);
    }
  }

  lemma {:induction false} PendingInOrder(rows: seq<Row>, clocked: bool)
    requires InOrder(rows, clocked)
    ensures InOrder(Pending(rows), clocked)
    ensures forall r :: r in Pending(rows) ==> r in rows
  {
    if rows != [] {
      TailInOrder(rows, clocked);
      PendingInOrder(rows[1..], clocked);
      PrependInOrder(rows[0], Pending(rows[1..]), clocked);
    }
  }

  ghost predicate Later(es: seq<Entry>, n: nat) {
    forall e :: e in es ==> n < e.seqNo
  }

  lemma AscendingCons(e: Entry, es: seq<Entry>)
    ensures Rising(Nums([e] + es)) <==> Rising(Nums(es)) && Later(es, e.seqNo)
  {
    var all := Nums([e] + es);
    assert all == [e.seqNo] + Nums(es);
    if Rising(all) {
      forall x | x in es ensures e.seqNo < x.seqNo {
        var i :| 0 <= i < |es| && es[i] == x;
        assert all[0] < all[i + 1];
      }
      forall i, j | 0 <= i < j < |es| ensures Nums(es)[i] < Nums(es)[j] {
        assert all[i + 1] < all[j + 1];
      }
    }
  }

  lemma {:induction false} OfTypeAscending(mem: seq<Entry>, t: DataType, m: bool)
    requires Rising(Nums(mem))
    ensures Rising(Nums(OfType(mem, t, m)))
    ensures forall e :: e in OfType(mem, t, m) ==> e in mem
  {
    if mem != [] {
      var tail := mem[1..];
      assert mem == [mem[0]] + tail;
      AscendingCons(mem[0], tail);
      OfTypeAscending(tail, t, m);
      AscendingCons(mem[0], OfType(tail, t, m));
    }
  }

  lemma SuffixAscending(mem: seq<Entry>, n: nat)
    requires n <= |mem| && Rising(Nums(mem))
    ensures Rising(Nums(mem[n..]))
  {
    NumsSplit(mem, n);
  }

  lemma InOrderDistinct(rows: seq<Row>, clocked: bool)
    requires InOrder(rows, clocked)
    ensures IdsAscend(rows) && DistinctIds(rows)
  {
    forall i, j | 0 <= i < j < |rows|
      ensures rows[i].id < rows[j].id
    {
      assert Before(rows[i], rows[j], clocked);
    }
    IncreasingIdsDistinct(rows);
  }

  // ---- Clocks -----------------------------------------------------------------

  function LastInstant(acts: seq<Action>): nat {
    if acts == [] then 0
    else match acts[|acts| - 1]
      case DoWrite(_, _, c, _) => c.now
      case _ => LastInstant(acts[..|acts| - 1])
  }

  /** The monotonic clock: never decreasing through a run. */
  ghost predicate InstantsMonotone(acts: seq<Action>) {
    acts != [] ==>
      var before := acts[..|acts| - 1];
      && InstantsMonotone(before)
      && match acts[|acts| - 1]
         case DoWrite(_, _, c, _) => LastInstant(before) <= c.created <= c.now
         case _ => true
  }

  /** Wall-clock stamp of the newest spilled row. */
  function LastSpillWall(acts: seq<Action>): Option<int> {
    if acts == [] then None
    else match acts[|acts| - 1]
      case DoWrite(_, _, c, _) => Some(c.spillWall)
      case _ => LastSpillWall(acts[..|acts| - 1])
  }

  /** The wall clock, which a host may set back, happens not to go back between writes. */
  ghost predicate WallMonotone(acts: seq<Action>) {
    acts != [] ==>
      var before := acts[..|acts| - 1];
      && WallMonotone(before)
      && match acts[|acts| - 1]
         case DoWrite(_, _, c, _) => LastSpillWall(before).None? || LastSpillWall(before).value <= c.spillWall
         case _ => true
  }

  // ---- The invariant over every run --------------------------------------------

  lemma ExpireInv(b: Buffer, now: nat, wall: int, clocked: bool)
    requires Inv(b, clocked)
    ensures Inv(Expire(b, now, wall), clocked)
  {
    SuffixAscending(b.mem, ExpiredFront(b.mem, now, b.cfg.ttlNanos));
    if b.cfg.persistent {
      AgedInOrder(b.rows, Cutoff(b.cfg, wall), false, clocked);
    }
  }

  lemma AppendInOrder(rows: seq<Row>, r: Row, clocked: bool)
    requires InOrder(rows, clocked)
    requires forall x :: x in rows ==> Before(x, r, clocked)
    ensures InOrder(rows + [r], clocked)
  {
  }

  lemma WriteInv(b: Buffer, data: seq<byte>, t: DataType, c: Clock, spillOk: bool, clocked: bool)
    requires Inv(b, clocked)
    requires clocked ==> forall r :: r in b.rows ==> r.createdAt <= c.spillWall
    ensures Inv(Write(b, data, t, c, spillOk), clocked)
  {
    ExpireInv(b, c.now, c.wall, clocked);
    var x := Expire(b, c.now, c.wall);
    if !Fits(x.mem, |data|, x.cfg.maxBytes) && x.cfg.persistent && spillOk {
      var r := Row(x.nextRowId, b.nextSeq, data, t.Name(), 2, c.spillWall, 0, false);
      assert forall y :: y in x.rows ==> y in b.rows by {
        AgedInOrder(b.rows, Cutoff(b.cfg, c.wall), false, clocked);
      }
      AppendInOrder(x.rows, r, clocked);
    } else {
      var e := Entry(b.nextSeq, c.created, data, t, None);
      AppendAscending(x.mem, EvictionCount(x.mem, |data|, x.cfg.maxBytes), e);
    }
  }

  lemma AppendAscending(mem: seq<Entry>, n: nat, e: Entry)
    requires n <= |mem| && Rising(Nums(mem))
    requires forall x :: x in mem ==> x.seqNo < e.seqNo
    ensures Rising(Nums(mem[n..] + [e]))
    ensures forall x :: x in mem[n..] + [e] ==> x in mem || x == e
  {
    SuffixAscending(mem, n);
    assert forall x :: x in mem[n..] ==> x in mem;
    NumsConcat(mem[n..], [e]);
  }

  lemma AcknowledgeInOrder(rows: seq<Row>, batch: seq<Row>, m: nat, k: nat, clocked: bool)
    requires k <= m + |batch| && InOrder(rows, clocked)
    ensures InOrder(Acknowledge(rows, batch, m, k), clocked)
    ensures |Acknowledge(rows, batch, m, k)| == |rows|
    ensures forall i :: 0 <= i < |rows| ==>
              var r := Acknowledge(rows, batch, m, k)[i];
              r == rows[i].(sent := r.sent, retryCount := r.retryCount)
  {
    var after := Acknowledge(rows, batch, m, k);
    forall i, j | 0 <= i < j < |after|
      ensures Before(after[i], after[j], clocked)
    {
      assert Before(rows[i], rows[j], clocked);
    }
  }

  lemma StepInv(s: System, a: Action, clocked: bool)
    requires Inv(s.buf, clocked)
    requires clocked && a.DoWrite? ==> forall r :: r in s.buf.rows ==> r.createdAt <= a.clock.spillWall
    ensures Inv(Step(s, a).buf, clocked)
  {
    var b := s.buf;
    match a
    case DoWrite(data, t, c, spillOk) => WriteInv(b, data, t, c, spillOk, clocked);
    case DoRead(count) => SuffixAscending(b.mem, Min(count, |b.mem|));
    case DoDrainByType(t) => OfTypeAscending(b.mem, t, false);
    case DoDeleteAll =>
    case DoFlush(ok) => AcknowledgeInOrder(b.rows, Batch(b.rows), |b.mem|, FlushCount(b, ok), clocked);
  }

  ghost predicate StampedBy(rows: seq<Row>, last: Option<int>) {
    forall r :: r in rows ==> last.Some? && r.createdAt <= last.value
  }

  lemma StepStamped(s: System, a: Action, before: Option<int>, after: Option<int>)
    requires StampedBy(s.buf.rows, before) && InOrder(s.buf.rows, false)
    requires a.DoWrite? ==> after == Some(a.clock.spillWall) && (before.None? || before.value <= after.value)
    requires !a.DoWrite? ==> after == before
    ensures StampedBy(Step(s, a).buf.rows, after)
  {
    var b := s.buf;
    match a
    case DoWrite(_, _, c, _) => AgedInOrder(b.rows, Cutoff(b.cfg, c.wall), false, false);
    case DoFlush(ok) => AcknowledgeInOrder(b.rows, Batch(b.rows), |b.mem|, FlushCount(b, ok), false);
    case _ =>
  }

  lemma {:induction false} RunInv(cfg: Config, acts: seq<Action>)
    ensures Inv(Run(cfg, acts).buf, false)
    ensures WallMonotone(acts) ==>
              Inv(Run(cfg, acts).buf, true) && StampedBy(Run(cfg, acts).buf.rows, LastSpillWall(acts))
  {
    if acts != [] {
      var before := acts[..|acts| - 1];
      var a := acts[|acts| - 1];
      RunInv(cfg, before);
      StepInv(Run(cfg, before), a, false);
      if WallMonotone(acts) {
        StepInv(Run(cfg, before), a, true);
        StepStamped(Run(cfg, before), a, LastSpillWall(before), LastSpillWall(acts));
      }
    }
  }

  // ---- Conservation -------------------------------------------------------------

  /** How often `n` is still held, in memory or in an unsent row. */
  function Held(b: Buffer, n: nat): nat {
    Count(Nums(b.mem), n) + PendingCount(b.rows, n)
  }

  /** How often `n` has left as it should: sent, read out, expired or deleted. */
  function Kept(s: System, n: nat): nat {
    Count(s.delivered, n) + Count(s.taken, n) + Count(s.expired, n) + Count(s.deleted, n)
  }

  /** How often `n` was lost: evicted to make room, or dropped by a flush. */
  function Lost(s: System, n: nat): nat {
    Count(s.displaced, n) + Count(s.dropped, n)
  }

  /** How often `n` has left. */
  function Gone(s: System, n: nat): nat {
    Kept(s, n) + Lost(s, n)
  }

  lemma SplitCount(mem: seq<Entry>, k: nat, n: nat)
    requires k <= |mem|
    ensures Count(Nums(mem[..k]), n) + Count(Nums(mem[k..]), n) == Count(Nums(mem), n)
  {
    assert Nums(mem) == Nums(mem[..k]) + Nums(mem[k..]);
    CountConcat(Nums(mem[..k]), Nums(mem[k..]), n);
  }

  lemma SpillCount(rows: seq<Row>, r: Row, n: nat)
    requires !r.sent
    ensures PendingCount(rows + [r], n) == PendingCount(rows, n) + if n == r.seqNo then 1 else 0
  {
    PendingSnoc(rows, r);
    assert RowNums(Pending(rows) + [r]) == RowNums(Pending(rows)) + [r.seqNo];
    CountSnoc(RowNums(Pending(rows)), r.seqNo, n);
  }

  lemma PushCount(mem: seq<Entry>, k: nat, e: Entry, n: nat)
    requires k <= |mem|
    ensures Count(Nums(mem[k..] + [e]), n) + Count(Nums(mem[..k]), n)
         == Count(Nums(mem), n) + if n == e.seqNo then 1 else 0
  {
    SplitCount(mem, k, n);
    assert Nums(mem[k..] + [e]) == Nums(mem[k..]) + [e.seqNo];
    CountSnoc(Nums(mem[k..]), e.seqNo, n);
  }

  lemma ExpireHeld(b: Buffer, now: nat, wall: int, n: nat)
    ensures Held(Expire(b, now, wall), n) + Count(ExpiredOut(b, now, wall), n) == Held(b, n)
  {
    SplitCount(b.mem, ExpiredFront(b.mem, now, b.cfg.ttlNanos), n);
    AgedPartitions(b.rows, Cutoff(b.cfg, wall), n);
    var gone := if b.cfg.persistent then RowNums(Pending(Aged(b.rows, Cutoff(b.cfg, wall), true))) else [];
    CountConcat(Nums(b.mem[..ExpiredFront(b.mem, now, b.cfg.ttlNanos)]), gone, n);
  }

  lemma SpillHeld(x: Buffer, r: Row, n: nat)
    requires !r.sent
    ensures Held(x.(rows := x.rows + [r]), n) == Held(x, n) + if n == r.seqNo then 1 else 0
  {
    SpillCount(x.rows, r, n);
  }

  lemma PushHeld(x: Buffer, k: nat, e: Entry, n: nat)
    requires k <= |x.mem|
    ensures Held(x.(mem := x.mem[k..] + [e]), n) + Count(Nums(x.mem[..k]), n)
         == Held(x, n) + if n == e.seqNo then 1 else 0
  {
    PushCount(x.mem, k, e, n);
  }

  /** Once expiry has left `x`, a write holds one number more, less those it evicts. */
  lemma PlaceHeld(b: Buffer, data: seq<byte>, t: DataType, c: Clock, spillOk: bool, n: nat)
    ensures Held(Write(b, data, t, c, spillOk), n) + Count(Displaced(b, data, c, spillOk), n)
         == Held(Expire(b, c.now, c.wall), n) + if n == b.nextSeq then 1 else 0
  {
    var x := Expire(b, c.now, c.wall);
    if !Fits(x.mem, |data|, x.cfg.maxBytes) && x.cfg.persistent && spillOk {
      SpillHeld(x, Row(x.nextRowId, b.nextSeq, data, t.Name(), 2, c.spillWall, 0, false), n);
    } else {
      PushHeld(x, EvictionCount(x.mem, |data|, x.cfg.maxBytes), Entry(b.nextSeq, c.created, data, t, None), n);
    }
  }

  lemma WriteHeld(b: Buffer, data: seq<byte>, t: DataType, c: Clock, spillOk: bool, n: nat)
    ensures Held(Write(b, data, t, c, spillOk), n)
            + Count(ExpiredOut(b, c.now, c.wall), n) + Count(Displaced(b, data, c, spillOk), n)
         == Held(b, n) + if n == b.nextSeq then 1 else 0
  {
    ExpireHeld(b, c.now, c.wall, n);
    PlaceHeld(b, data, t, c, spillOk, n);
  }

  /** Marking the first `d` rows of the batch as sent takes exactly their numbers out of the pending rows. */
  lemma SentConserves(rows: seq<Row>, d: nat, n: nat)
    requires DistinctIds(rows) && d <= |Batch(rows)|
    ensures var done := Batch(rows)[..d];
            var left := WithoutIds(Pending(rows), Ids(done));
            && Count(RowNums(left), n) + Count(RowNums(done), n) == Count(RowNums(Pending(rows)), n)
            && |left| == |Pending(rows)| - d
  {
    var done := Batch(rows)[..d];
    BatchKeeps(rows);
    PendingDistinct(rows);
    PrefixDistinct(Batch(rows), d);
    assert forall x :: x in done ==> x in Batch(rows);
    WithoutBatch(Pending(rows), done, n);
  }

  lemma AcknowledgedPending(rows: seq<Row>, batch: seq<Row>, m: nat, k: nat, n: nat)
    requires k <= m + |batch|
    ensures var after := Pending(Acknowledge(rows, batch, m, k));
            var left := WithoutIds(Pending(rows), Ids(batch[..Max(0, k - m)]));
            |after| == |left| && Count(RowNums(after), n) == Count(RowNums(left), n)
  {
    var ids := Ids(batch[..Max(0, k - m)]);
    var acked := if k <= m then rows else Sent(rows, ids);
    SentOrSame(rows, ids);
    assert Pending(acked) == WithoutIds(Pending(rows), ids);
    if m <= k < m + |batch| {
      PendingRetried(acked, batch[k - m].id);
      SameNums(Pending(Retried(acked, batch[k - m].id)), Pending(acked), n);
    }
  }

  /** Acknowledging part of the batch takes exactly the numbers sent out of the pending rows. */
  lemma AcknowledgeConserves(rows: seq<Row>, m: nat, k: nat, n: nat)
    requires DistinctIds(rows) && k <= m + |Batch(rows)|
    ensures var done := Batch(rows)[..Max(0, k - m)];
            var after := Pending(Acknowledge(rows, Batch(rows), m, k));
            && Count(RowNums(after), n) + Count(RowNums(done), n) == Count(RowNums(Pending(rows)), n)
            && |after| == |Pending(rows)| - |done|
  {
    SentConserves(rows, Max(0, k - m), n);
    AcknowledgedPending(rows, Batch(rows), m, k, n);
  }

  lemma SentOrSame(rows: seq<Row>, ids: set<nat>)
    ensures Pending(Sent(rows, ids)) == WithoutIds(Pending(rows), ids)
    ensures ids == {} ==> Pending(rows) == WithoutIds(Pending(rows), ids)
  {
    PendingSent(rows, ids);
    if ids == {} {
      WithoutNothing(Pending(rows), ids);
    }
  }

  lemma SameNums(a: seq<Row>, b: seq<Row>, n: nat)
    requires RowNums(a) == RowNums(b)
    ensures |a| == |b| && Count(RowNums(a), n) == Count(RowNums(b), n)
  {
    assert |RowNums(a)| == |RowNums(b)|;
  }

  /** Cutting `xs + ys` after `k`: what is before the cut, and what of `xs` is after it. */
  lemma CutCount(xs: seq<nat>, ys: seq<nat>, k: nat, n: nat)
    requires k <= |xs| + |ys|
    ensures Count((xs + ys)[..k], n) + Count(xs[Min(|xs|, k)..], n)
         == Count(xs, n) + Count(ys[..Max(0, k - |xs|)], n)
  {
    if k <= |xs| {
      assert (xs + ys)[..k] == xs[..k] && xs == xs[..k] + xs[k..] && ys[..0] == [];
      CountConcat(xs[..k], xs[k..], n);
    } else {
      assert (xs + ys)[..k] == xs + ys[..k - |xs|] && xs[|xs|..] == [];
      CountConcat(xs, ys[..k - |xs|], n);
    }
  }

  lemma FlushHeld(b: Buffer, ok: nat -> bool, n: nat)
    requires DistinctIds(b.rows)
    ensures Held(Flush(b, ok), n) + Count(FlushDelivered(b, ok), n) + Count(FlushDropped(b, ok), n) == Held(b, n)
  {
    var m, k, batch := |b.mem|, FlushCount(b, ok), Batch(b.rows);
    AcknowledgeConserves(b.rows, m, k, n);
    CutHeld(b, batch, Acknowledge(b.rows, batch, m, k), k, n);
    MemoryEmptied(Flush(b, ok), n);
  }

  /** What is held before, in terms of what the cut after `k` sends divides it into. */
  lemma CutHeld(b: Buffer, batch: seq<Row>, after: seq<Row>, k: nat, n: nat)
    requires k <= |b.mem| + |batch|
    requires Count(RowNums(Pending(after)), n) + Count(RowNums(batch[..Max(0, k - |b.mem|)]), n)
          == Count(RowNums(Pending(b.rows)), n)
    ensures Count(RowNums(Pending(after)), n) + Count((Nums(b.mem) + RowNums(batch))[..k], n)
            + Count(Nums(b.mem)[Min(|b.mem|, k)..], n)
         == Held(b, n)
  {
    var d := Max(0, k - |b.mem|);
    CutCount(Nums(b.mem), RowNums(batch), k, n);
    assert RowNums(batch)[..d] == RowNums(batch[..d]);
  }

  lemma MemoryEmptied(b: Buffer, n: nat)
    requires b.mem == []
    ensures Held(b, n) == Count(RowNums(Pending(b.rows)), n)
  {
  }

  /** What one step sends out of the buffer. */
  function Leaving(b: Buffer, a: Action, n: nat): nat {
    match a
    case DoWrite(data, t, c, spillOk) =>
      Count(ExpiredOut(b, c.now, c.wall), n) + Count(Displaced(b, data, c, spillOk), n)
    case DoRead(count) => Count(Nums(b.mem[..Min(count, |b.mem|)]), n)
    case DoDrainByType(t) => Count(Nums(OfType(b.mem, t, true)), n)
    case DoDeleteAll => Held(b, n)
    case DoFlush(ok) => Count(FlushDelivered(b, ok), n) + Count(FlushDropped(b, ok), n)
  }

  lemma StepHeld(s: System, a: Action, n: nat)
    requires DistinctIds(s.buf.rows)
    ensures Held(Step(s, a).buf, n) + Leaving(s.buf, a, n)
         == Held(s.buf, n) + if a.DoWrite? && n == s.buf.nextSeq then 1 else 0
  {
    var b := s.buf;
    match a
    case DoWrite(data, t, c, spillOk) => WriteHeld(b, data, t, c, spillOk, n);
    case DoRead(count) => SplitCount(b.mem, Min(count, |b.mem|), n);
    case DoDrainByType(t) => OfTypePartitions(b.mem, t, n);
    case DoDeleteAll =>
    case DoFlush(ok) => FlushHeld(b, ok, n);
  }

  lemma StepGone(s: System, a: Action, n: nat)
    ensures Gone(Step(s, a), n) == Gone(s, n) + Leaving(s.buf, a, n)
  {
    var b := s.buf;
    match a
    case DoWrite(data, t, c, spillOk) =>
      CountConcat(s.expired, ExpiredOut(b, c.now, c.wall), n);
      CountConcat(s.displaced, Displaced(b, data, c, spillOk), n);
    case DoRead(count) => CountConcat(s.taken, Nums(b.mem[..Min(count, |b.mem|)]), n);
    case DoDrainByType(t) => CountConcat(s.taken, Nums(OfType(b.mem, t, true)), n);
    case DoDeleteAll =>
      CountConcat(s.deleted, Nums(b.mem), n);
      CountConcat(s.deleted + Nums(b.mem), RowNums(Pending(b.rows)), n);
    case DoFlush(ok) =>
      CountConcat(s.delivered, FlushDelivered(b, ok), n);
      CountConcat(s.dropped, FlushDropped(b, ok), n);
  }

  /** How often `n` should be somewhere once the numbers 1 to `handed` have been handed out. */
  function Due(n: nat, handed: nat): nat {
    if 1 <= n <= handed then 1 else 0
  }

  /** A step takes a number from one place to another; a write adds the one it hands out. */
  lemma StepConserves(s: System, a: Action, n: nat)
    requires DistinctIds(s.buf.rows)
    ensures Held(Step(s, a).buf, n) + Gone(Step(s, a), n)
         == Held(s.buf, n) + Gone(s, n) + if a.DoWrite? && n == s.buf.nextSeq then 1 else 0
    ensures Step(s, a).buf.nextSeq == s.buf.nextSeq + if a.DoWrite? then 1 else 0
  {
    StepHeld(s, a, n);
    StepGone(s, a, n);
  }

  /**
   Over every run, whatever the clocks, the send outcomes and the failed inserts: every
   number handed out by a write is in exactly one place, and no other number is anywhere.
   */
  lemma {:induction false} EveryNumberInExactlyOnePlace(cfg: Config, acts: seq<Action>, n: nat)
    ensures Run(cfg, acts).buf.nextSeq == 1 + Writes(acts)
    ensures Held(Run(cfg, acts).buf, n) + Gone(Run(cfg, acts), n) == Due(n, Writes(acts))
  {
    if acts != [] {
      var before := acts[..|acts| - 1];
      EveryNumberInExactlyOnePlace(cfg, before, n);
      RunInv(cfg, before);
      InOrderDistinct(Run(cfg, before).buf.rows, false);
      StepConserves(Run(cfg, before), acts[|acts| - 1], n);
    }
  }

  lemma AtMostOnceDistinct(xs: seq<nat>)
    requires forall n :: Count(xs, n) <= 1
    ensures forall i, j :: 0 <= i < j < |xs| ==> xs[i] != xs[j]
  {
    forall i, j | 0 <= i < j < |xs|
      ensures xs[i] != xs[j]
    {
      assert xs == xs[..j] + xs[j..];
      CountConcat(xs[..j], xs[j..], xs[j]);
      CountedIff(xs[..j], xs[j]);
      CountedIff(xs[j..], xs[j]);
      assert xs[j..][0] == xs[j] && xs[i] == xs[..j][i] && xs[i] in xs[..j];
    }
  }

  /** The flush loop never gets the same entry through twice. */
  lemma NothingDeliveredTwice(cfg: Config, acts: seq<Action>)
    ensures var d := Run(cfg, acts).delivered; forall i, j :: 0 <= i < j < |d| ==> d[i] != d[j]
  {
    forall n
      ensures Count(Run(cfg, acts).delivered, n) <= 1
    {
      EveryNumberInExactlyOnePlace(cfg, acts, n);
    }
    AtMostOnceDistinct(Run(cfg, acts).delivered);
  }
}
