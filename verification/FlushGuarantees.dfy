/** What one flush does to a reachable buffer, the memory bound and the TTL. */
module FlushGuarantees {
  import opened Basics
  import opened EdgeBufferModel
  import opened EdgeBufferLemmas
  import opened DeliveryRuns

  // ---- Order of delivery --------------------------------------------------------

  lemma OldestFirst(rows: seq<Row>)
    requires InOrder(rows, true)
    ensures Batch(rows) == Take(Pending(rows), SQLITE_DRAIN_BATCH_SIZE)
    ensures InOrder(Batch(rows), true)
  {
    PendingInOrder(rows, true);
    var p := Pending(rows);
    forall i, j | 0 <= i < j < |p|
      ensures Precedes(p[i], p[j])
    {
      assert Before(p[i], p[j], true);
    }
    OrderByIdentity(p);
  }

  lemma InOrderRising(rows: seq<Row>, clocked: bool)
    requires InOrder(rows, clocked)
    ensures Rising(RowNums(rows))
  {
    forall i, j | 0 <= i < j < |rows|
      ensures rows[i].seqNo < rows[j].seqNo
    {
      assert Before(rows[i], rows[j], clocked);
    }
  }

  /**
   In any reachable buffer, whatever the clocks did, a flush delivers a prefix of the memory FIFO followed by
   the first thousand pending rows in drain order, up to the first refusal. If the wall clock was never
   set back those are the oldest thousand, and each half is in write order; the two halves are never merged.
   */
  lemma FlushDeliversOldestFirst(cfg: Config, acts: seq<Action>, ok: nat -> bool)
    ensures var b := Run(cfg, acts).buf;
            var batch := Batch(b.rows);
            && FlushDelivered(b, ok) <= Nums(b.mem) + RowNums(batch)
            && Rising(Nums(b.mem)) && TakesFirst(b.rows, batch)
            && (forall i :: 0 <= i < |FlushDelivered(b, ok)| ==> ok(i))
            && (FlushDelivered(b, ok) == Nums(b.mem) + RowNums(batch) || !ok(|FlushDelivered(b, ok)|))
            && (WallMonotone(acts) ==>
                  batch == Take(Pending(b.rows), SQLITE_DRAIN_BATCH_SIZE) && Rising(RowNums(batch)))
  {
    var b := Run(cfg, acts).buf;
    RunInv(cfg, acts);
    InOrderDistinct(b.rows, false);
    BatchTakesFirst(b.rows);
    if WallMonotone(acts) {
      OldestFirst(b.rows);
      InOrderRising(Batch(b.rows), true);
    }
  }

  // ---- What a flush can lose ------------------------------------------------------

  /** How often `n` is gone for good after a flush: held before it, and then neither held nor delivered. */
  function Missing(b: Buffer, ok: nat -> bool, n: nat): int {
    Held(b, n) - Held(Flush(b, ok), n) - Count(FlushDelivered(b, ok), n)
  }

  lemma InNumsIff(mem: seq<Entry>, k: nat, n: nat)
    requires k <= |mem|
    ensures Count(Nums(mem)[k..], n) > 0 <==> exists i :: k <= i < |mem| && mem[i].seqNo == n
  {
    var rest := Nums(mem)[k..];
    CountedIff(rest, n);
    if n in rest {
      var j :| 0 <= j < |rest| && rest[j] == n;
      assert mem[k + j].seqNo == n;
    }
    if i :| k <= i < |mem| && mem[i].seqNo == n {
      assert rest[i - k] == n;
    }
  }

  lemma MissingIs(b: Buffer, ok: nat -> bool, n: nat)
    requires DistinctIds(b.rows)
    ensures Missing(b, ok, n) >= 0
    ensures Missing(b, ok, n) > 0 <==> exists i :: FlushCount(b, ok) <= i < |b.mem| && b.mem[i].seqNo == n
  {
    var k := FlushCount(b, ok);
    FlushHeld(b, ok, n);
    InNumsIff(b.mem, Min(|b.mem|, k), n);
  }

  /**
   The file's header promises no data loss. In any reachable buffer, what a flush loses are exactly the entries
   that live only in memory at and after the first refusal; so it keeps the promise exactly when no
   send is refused while such entries are still to go.
   */
  lemma FlushLosesNothingIff(cfg: Config, acts: seq<Action>, ok: nat -> bool)
    ensures var b := Run(cfg, acts).buf;
            && (forall n: nat :: Missing(b, ok, n) > 0 <==>
                  exists i :: FlushCount(b, ok) <= i < |b.mem| && b.mem[i].seqNo == n)
            && ((forall n: nat :: Missing(b, ok, n) == 0) <==> forall i :: 0 <= i < |b.mem| ==> ok(i))
  {
    var b := Run(cfg, acts).buf;
    RunInv(cfg, acts);
    InOrderDistinct(b.rows, false);
    BufferLosesNothingIff(b, ok);
  }

  lemma BufferLosesNothingIff(b: Buffer, ok: nat -> bool)
    requires DistinctIds(b.rows)
    ensures forall n: nat :: Missing(b, ok, n) > 0 <==>
              exists i :: FlushCount(b, ok) <= i < |b.mem| && b.mem[i].seqNo == n
    ensures (forall n: nat :: Missing(b, ok, n) == 0) <==> forall i :: 0 <= i < |b.mem| ==> ok(i)
  {
    var missing := (n: nat) => Missing(b, ok, n);
    forall n: nat
      ensures missing(n) == Missing(b, ok, n) >= 0
      ensures missing(n) > 0 <==> exists i :: FlushCount(b, ok) <= i < |b.mem| && b.mem[i].seqNo == n
    {
      MissingIs(b, ok, n);
    }
    NothingMissingIff(b.mem, FlushCount(b, ok), missing);
    StopsInMemoryIff(b, ok);
  }

  lemma NothingMissingIff(mem: seq<Entry>, k: nat, missing: nat -> int)
    requires forall n :: missing(n) >= 0
    requires forall n :: missing(n) > 0 <==> exists i :: k <= i < |mem| && mem[i].seqNo == n
    ensures (forall n :: missing(n) == 0) <==> k >= |mem|
  {
    if k < |mem| {
      assert missing(mem[k].seqNo) > 0;
    }
  }

  lemma StopsInMemoryIff(b: Buffer, ok: nat -> bool)
    ensures FlushCount(b, ok) >= |b.mem| <==> forall i :: 0 <= i < |b.mem| ==> ok(i)
  {
  }

  /** One buffered entry and one refused send: the entry is neither delivered nor held any more. */
  lemma RefusedSendLosesMemory(data: seq<byte>, c: Clock, ok: nat -> bool)
    requires !ok(0)
    ensures var cfg := Config(|data|, 0, false);
            var s := Run(cfg, [DoWrite(data, Metrics, c, true), DoFlush(ok)]);
            s.dropped == [1] && s.delivered == [] && s.buf.mem == [] && s.buf.rows == []
  {
    var cfg := Config(|data|, 0, false);
    var acts := [DoWrite(data, Metrics, c, true), DoFlush(ok)];
    assert acts[..1][..0] == [] && acts[..1][0] == acts[0];
    assert Run(cfg, acts[..1]) == Step(Start(cfg), acts[0]);
    assert Run(cfg, acts) == Step(Run(cfg, acts[..1]), acts[1]);
    var b := Run(cfg, acts[..1]).buf;
    assert b.mem == [Entry(1, c.created, data, Metrics, None)] && Nums(b.mem) == [1];
    assert FlushCount(b, ok) == 0;
  }

  // ---- What a whole run can lose --------------------------------------------------

  /** A step that loses nothing, as its caller could tell beforehand. */
  ghost predicate Careful(b: Buffer, a: Action) {
    match a
    case DoWrite(data, _, c, spillOk) =>
      var x := Expire(b, c.now, c.wall);
      Fits(x.mem, |data|, x.cfg.maxBytes) || (x.cfg.persistent && spillOk) || x.mem == []
    case DoFlush(ok) => forall i :: 0 <= i < |b.mem| ==> ok(i)
    case _ => true
  }

  /**
   A write evicts something exactly when memory is full, the entry cannot be spilled and there is something
   to evict.
   */
  lemma DisplacesNothingIff(b: Buffer, data: seq<byte>, c: Clock, spillOk: bool)
    ensures var x := Expire(b, c.now, c.wall);
            Displaced(b, data, c, spillOk) == []
            <==> Fits(x.mem, |data|, x.cfg.maxBytes) || (x.cfg.persistent && spillOk) || x.mem == []
  {
    var x := Expire(b, c.now, c.wall);
    var k := EvictionCount(x.mem, |data|, x.cfg.maxBytes);
    assert |Nums(x.mem[..k])| == k;
    assert x.mem[0..] == x.mem;
  }

  lemma ExtendsIff(xs: seq<nat>, ys: seq<nat>)
    ensures xs + ys == xs <==> ys == []
  {
    assert |xs + ys| == |xs| + |ys|;
    assert xs + [] == xs;
  }

  lemma CarefulIff(s: System, a: Action)
    ensures Careful(s.buf, a) <==> Step(s, a).displaced == s.displaced && Step(s, a).dropped == s.dropped
  {
    match a
    case DoWrite(data, _, c, spillOk) =>
      DisplacesNothingIff(s.buf, data, c, spillOk);
      ExtendsIff(s.displaced, Displaced(s.buf, data, c, spillOk));
    case DoFlush(ok) => ExtendsIff(s.dropped, FlushDropped(s.buf, ok));
    case _ =>
  }

  lemma NeverUnlost(s: System, a: Action)
    ensures s.displaced <= Step(s, a).displaced && s.dropped <= Step(s, a).dropped
  {
  }

  lemma StepLosesIff(s: System, a: Action)
    ensures NothingLost(Step(s, a)) <==> NothingLost(s) && Careful(s.buf, a)
  {
    CarefulIff(s, a);
    NeverUnlost(s, a);
  }

  /** Every step of a run is careful. */
  ghost predicate AllCareful(cfg: Config, acts: seq<Action>) {
    forall i :: 0 <= i < |acts| ==> Careful(Run(cfg, acts[..i]).buf, acts[i])
  }

  lemma AllCarefulSnoc(cfg: Config, before: seq<Action>, a: Action)
    ensures AllCareful(cfg, before + [a]) <==> AllCareful(cfg, before) && Careful(Run(cfg, before).buf, a)
  {
    var acts := before + [a];
    assert acts[..|before|] == before && acts[|before|] == a;
    assert forall i :: 0 <= i < |before| ==> acts[..i] == before[..i] && acts[i] == before[i];
  }

  lemma RunSnoc(cfg: Config, before: seq<Action>, a: Action)
    ensures Run(cfg, before + [a]) == Step(Run(cfg, before), a)
  {
    assert (before + [a])[..|before|] == before;
  }

  ghost predicate NothingLost(s: System) {
    s.displaced == [] && s.dropped == []
  }

  lemma NoneLostSnoc(cfg: Config, before: seq<Action>, a: Action)
    requires LostUnlessCareful(cfg, before)
    ensures LostUnlessCareful(cfg, before + [a])
  {
    RunSnoc(cfg, before, a);
    AllCarefulSnoc(cfg, before, a);
    StepLosesIff(Run(cfg, before), a);
  }

  /** A property of the empty run that every step keeps holds of every run. */
  lemma {:induction false} HoldsOfAll(p: seq<Action> -> bool, acts: seq<Action>)
    requires p([]) && forall before: seq<Action>, a: Action :: p(before) ==> p(before + [a])
    ensures p(acts)
  {
    if acts != [] {
      var n := |acts| - 1;
      HoldsOfAll(p, acts[..n]);
      assert acts == acts[..n] + [acts[n]];
    }
  }

  ghost predicate LostUnlessCareful(cfg: Config, acts: seq<Action>) {
    NothingLost(Run(cfg, acts)) <==> AllCareful(cfg, acts)
  }

  lemma NoneLostIff(cfg: Config, acts: seq<Action>)
    ensures NothingLost(Run(cfg, acts)) <==> AllCareful(cfg, acts)
  {
    forall before: seq<Action>, a: Action | LostUnlessCareful(cfg, before)
      ensures LostUnlessCareful(cfg, before + [a])
    {
      NoneLostSnoc(cfg, before, a);
    }
    HoldsOfAll(run => LostUnlessCareful(cfg, run), acts);
  }

  lemma NoCountsIff(a: seq<nat>, b: seq<nat>)
    ensures (forall n :: Count(a, n) + Count(b, n) == 0) <==> a == [] && b == []
  {
    if a != [] {
      CountedIff(a, a[0]);
    }
    if b != [] {
      CountedIff(b, b[0]);
    }
  }

  /**
   The header's promise over a whole run: every number handed out is still held, or was delivered, read out,
   expired or deleted, if and only if no write found memory full with something in it and no way to spill,
   and no flush was refused a send while memory entries were still to go.
   */
  lemma NoDataLossIff(cfg: Config, acts: seq<Action>)
    ensures (forall n :: Held(Run(cfg, acts).buf, n) + Kept(Run(cfg, acts), n) == Due(n, Writes(acts)))
       <==> AllCareful(cfg, acts)
  {
    var s := Run(cfg, acts);
    forall n
      ensures Held(s.buf, n) + Kept(s, n) + Lost(s, n) == Due(n, Writes(acts))
    {
      EveryNumberInExactlyOnePlace(cfg, acts, n);
    }
    NoneLostIff(cfg, acts);
    LostIff(s, Writes(acts));
  }

  lemma LostIff(s: System, handed: nat)
    requires forall n :: Held(s.buf, n) + Kept(s, n) + Lost(s, n) == Due(n, handed)
    ensures (forall n :: Held(s.buf, n) + Kept(s, n) == Due(n, handed)) <==> NothingLost(s)
  {
    NoCountsIff(s.displaced, s.dropped);
    if forall n :: Held(s.buf, n) + Kept(s, n) == Due(n, handed) {
      forall n ensures Count(s.displaced, n) + Count(s.dropped, n) == 0 {
        assert Lost(s, n) == 0;
      }
    }
    if s.displaced == [] && s.dropped == [] {
      forall n ensures Held(s.buf, n) + Kept(s, n) == Due(n, handed) {
        assert Lost(s, n) == 0;
      }
    }
  }

  lemma RunConfig(cfg: Config, acts: seq<Action>)
    ensures Run(cfg, acts).buf.cfg == cfg
  {
    if acts != [] {
      RunConfig(cfg, acts[..|acts| - 1]);
    }
  }

  /** Every insert into the table so far has worked. */
  ghost predicate NoFailedSpill(acts: seq<Action>) {
    forall i :: 0 <= i < |acts| && acts[i].DoWrite? ==> acts[i].spillOk
  }

  lemma SpilledDisplacesNothing(s: System, a: Action)
    requires s.buf.cfg.persistent && (a.DoWrite? ==> a.spillOk)
    ensures Step(s, a).displaced == s.displaced
  {
    if a.DoWrite? {
      DisplacesNothingIff(s.buf, a.data, a.clock, a.spillOk);
    }
  }

  /**
   With a database whose inserts all work, nothing is ever evicted to make room: only the TTL and deletion take
   entries out.
   */
  lemma {:induction false} WorkingTableDisplacesNothing(cfg: Config, acts: seq<Action>)
    requires cfg.persistent && NoFailedSpill(acts)
    ensures Run(cfg, acts).displaced == []
  {
    if acts != [] {
      var before, a := acts[..|acts| - 1], acts[|acts| - 1];
      WorkingTableDisplacesNothing(cfg, before);
      RunConfig(cfg, before);
      SpilledDisplacesNothing(Run(cfg, before), a);
    }
  }

  // ---- What a flush does to the rows ------------------------------------------------

  /** A row id identifies its row. */
  lemma BatchRowById(rows: seq<Row>, i: nat, d: nat)
    requires InOrder(rows, false) && i < |rows| && d < |Batch(rows)|
    ensures Batch(rows)[d].id == rows[i].id <==> Batch(rows)[d] == rows[i]
  {
    InOrderDistinct(rows, false);
    BatchKeeps(rows);
    PendingDistinct(rows);
    assert Batch(rows)[d] in Pending(rows) && Batch(rows)[d] in rows;
    var j :| 0 <= j < |rows| && rows[j] == Batch(rows)[d];
    assert i < j ==> Before(rows[i], rows[j], false);
    assert j < i ==> Before(rows[j], rows[i], false);
  }

  lemma InBatchPrefix(rows: seq<Row>, i: nat, n: nat)
    requires InOrder(rows, false) && i < |rows| && n <= |Batch(rows)|
    ensures rows[i].id in Ids(Batch(rows)[..n]) <==> exists d :: 0 <= d < n && Batch(rows)[d] == rows[i]
  {
    var done := Batch(rows)[..n];
    if rows[i].id in Ids(done) {
      var r :| r in done && r.id == rows[i].id;
      var d :| 0 <= d < n && done[d] == r;
      BatchRowById(rows, i, d);
    }
    if exists d :: 0 <= d < n && Batch(rows)[d] == rows[i] {
      var d :| 0 <= d < n && Batch(rows)[d] == rows[i];
      assert done[d] in done;
    }
  }

  /** What happened to row `r` in a flush that got `k` sends through. */
  ghost predicate RowAfter(batch: seq<Row>, m: nat, k: nat, r: Row, after: Row) {
    && (after.sent <==> r.sent || exists d :: 0 <= d < k - m && d < |batch| && batch[d] == r)
    && after.retryCount == r.retryCount + (if m <= k < m + |batch| && batch[k - m] == r then 1 else 0)
    && after == r.(sent := after.sent, retryCount := after.retryCount)
  }

  lemma AcknowledgedAt(rows: seq<Row>, batch: seq<Row>, m: nat, k: nat, i: nat)
    requires k <= m + |batch| && i < |rows|
    ensures |Acknowledge(rows, batch, m, k)| == |rows|
    ensures var r, after := rows[i], Acknowledge(rows, batch, m, k)[i];
            && (after.sent <==> r.sent || (k > m && r.id in Ids(batch[..k - m])))
            && after.retryCount == r.retryCount + (if m <= k < m + |batch| && batch[k - m].id == r.id then 1 else 0)
            && after == r.(sent := after.sent, retryCount := after.retryCount)
  {
  }

  lemma RowAfterIs(batch: seq<Row>, m: nat, k: nat, r: Row, after: Row, done: bool, refused: bool)
    requires done <==> exists d :: 0 <= d < k - m && d < |batch| && batch[d] == r
    requires refused <==> m <= k < m + |batch| && batch[k - m] == r
    requires after.sent <==> r.sent || done
    requires after.retryCount == r.retryCount + if refused then 1 else 0
    requires after == r.(sent := after.sent, retryCount := after.retryCount)
    ensures RowAfter(batch, m, k, r, after)
  {
  }

  lemma AcknowledgedRow(rows: seq<Row>, m: nat, k: nat, i: nat)
    requires InOrder(rows, false) && k <= m + |Batch(rows)| && i < |rows|
    ensures |Acknowledge(rows, Batch(rows), m, k)| == |rows|
    ensures RowAfter(Batch(rows), m, k, rows[i], Acknowledge(rows, Batch(rows), m, k)[i])
  {
    var batch, r := Batch(rows), rows[i];
    AcknowledgedAt(rows, batch, m, k, i);
    var done := k > m && r.id in Ids(batch[..k - m]);
    var refused := m <= k < m + |batch| && batch[k - m].id == r.id;
    if k > m {
      InBatchPrefix(rows, i, k - m);
    }
    if m <= k < m + |batch| {
      BatchRowById(rows, i, k - m);
    }
    RowAfterIs(batch, m, k, r, Acknowledge(rows, batch, m, k)[i], done, refused);
  }

  /**
   A flush deletes no row, in any reachable buffer: each stays in place with its contents, exactly the
   delivered ones become sent, and only the refused row, if it was a row, has its retry count raised.
   */
  lemma FlushKeepsRows(cfg: Config, acts: seq<Action>, ok: nat -> bool)
    ensures var b := Run(cfg, acts).buf;
            && |Flush(b, ok).rows| == |b.rows|
            && forall i :: 0 <= i < |b.rows| ==>
                 RowAfter(Batch(b.rows), |b.mem|, |FlushDelivered(b, ok)|, b.rows[i], Flush(b, ok).rows[i])
  {
    RunInv(cfg, acts);
    var b := Run(cfg, acts).buf;
    forall i | 0 <= i < |b.rows|
      ensures |Flush(b, ok).rows| == |b.rows|
      ensures RowAfter(Batch(b.rows), |b.mem|, FlushCount(b, ok), b.rows[i], Flush(b, ok).rows[i])
    {
      AcknowledgedRow(b.rows, |b.mem|, FlushCount(b, ok), i);
    }
    AcknowledgeInOrder(b.rows, Batch(b.rows), |b.mem|, FlushCount(b, ok), false);
  }

  // ---- Emptying the backlog ---------------------------------------------------------

  function Flushes(b: Buffer, oks: seq<nat -> bool>): Buffer
    decreases |oks|
  {
    if oks == [] then b else Flushes(Flush(b, oks[0]), oks[1..])
  }

  lemma CompleteFlush(b: Buffer, ok: nat -> bool)
    requires InOrder(b.rows, false)
    requires forall i :: ok(i)
    ensures Flush(b, ok).mem == [] && FlushDropped(b, ok) == []
    ensures |Pending(Flush(b, ok).rows)| == Max(0, |Pending(b.rows)| - SQLITE_DRAIN_BATCH_SIZE)
    ensures InOrder(Flush(b, ok).rows, false)
  {
    InOrderDistinct(b.rows, false);
    BatchKeeps(b.rows);
    AcknowledgeConserves(b.rows, |b.mem|, FlushCount(b, ok), 0);
    AcknowledgeInOrder(b.rows, Batch(b.rows), |b.mem|, FlushCount(b, ok), false);
  }

  function Backlog(b: Buffer): nat {
    |Pending(b.rows)|
  }

  function Remaining(pending: nat, flushes: nat): nat {
    Max(0, pending - SQLITE_DRAIN_BATCH_SIZE * flushes)
  }

  lemma RemainingStep(pending: nat, flushes: nat)
    ensures Remaining(Remaining(pending, 1), flushes) == Remaining(pending, flushes + 1)
  {
  }

  ghost predicate AllAccepted(oks: seq<nat -> bool>) {
    forall f, i :: 0 <= f < |oks| ==> oks[f](i)
  }

  lemma {:induction false} CompleteFlushes(b: Buffer, oks: seq<nat -> bool>)
    requires InOrder(b.rows, false)
    requires AllAccepted(oks)
    ensures Backlog(Flushes(b, oks)) == Remaining(Backlog(b), |oks|)
    ensures Remaining(Backlog(b), |oks|) == 0 <==> SQLITE_DRAIN_BATCH_SIZE * |oks| >= Backlog(b)
    ensures oks != [] ==> Flushes(b, oks).mem == []
    decreases |oks|
  {
    if oks != [] {
      CompleteFlush(b, oks[0]);
      CompleteFlushes(Flush(b, oks[0]), oks[1..]);
      RemainingStep(Backlog(b), |oks| - 1);
    }
  }

  /**
   With no refusals and no writes, each flush of a reachable buffer clears a thousand pending rows, or
   all that are left: ceil(p / 1000) flushes, and no fewer, empty a backlog of p rows.
   */
  lemma FlushesEmptyBacklog(cfg: Config, acts: seq<Action>, oks: seq<nat -> bool>)
    requires AllAccepted(oks)
    ensures var b := Run(cfg, acts).buf;
            && Backlog(Flushes(b, oks)) == Remaining(Backlog(b), |oks|)
            && (oks != [] ==> Flushes(b, oks).mem == [])
            && (Backlog(Flushes(b, oks)) == 0 <==> SQLITE_DRAIN_BATCH_SIZE * |oks| >= Backlog(b))
  {
    RunInv(cfg, acts);
    CompleteFlushes(Run(cfg, acts).buf, oks);
  }

  // ---- Memory bound -------------------------------------------------------------------

  /** At most the configured bytes, or else a single entry too large for it. */
  ghost predicate WithinBound(b: Buffer) {
    Bytes(b.mem) <= b.cfg.maxBytes || |b.mem| == 1
  }

  lemma WriteWithinBound(b: Buffer, data: seq<byte>, t: DataType, c: Clock, spillOk: bool)
    requires WithinBound(b)
    ensures WithinBound(Write(b, data, t, c, spillOk))
    ensures b.cfg.persistent && spillOk && Bytes(b.mem) <= b.cfg.maxBytes ==>
              Bytes(Write(b, data, t, c, spillOk).mem) <= b.cfg.maxBytes
  {
    var x := Expire(b, c.now, c.wall);
    BytesSuffix(b.mem, ExpiredFront(b.mem, c.now, b.cfg.ttlNanos));
    var n := EvictionCount(x.mem, |data|, x.cfg.maxBytes);
    var e := Entry(b.nextSeq, c.created, data, t, None);
    BytesConcat(x.mem[n..], [e]);
    assert Bytes([e]) == |data|;
    assert n == |x.mem| ==> x.mem[n..] + [e] == [e];
    assert Fits(x.mem, |data|, x.cfg.maxBytes) ==> n == 0 && x.mem[n..] == x.mem by {
      assert x.mem[0..] == x.mem;
    }
  }

  lemma {:induction false} RunWithinBound(cfg: Config, acts: seq<Action>)
    ensures var b := Run(cfg, acts).buf;
            && b.cfg == cfg && WithinBound(b)
            && (cfg.persistent && NoFailedSpill(acts) ==> Bytes(b.mem) <= cfg.maxBytes)
  {
    if acts != [] {
      var before, a := acts[..|acts| - 1], acts[|acts| - 1];
      RunWithinBound(cfg, before);
      var b := Run(cfg, before).buf;
      match a
      case DoWrite(data, t, c, spillOk) =>
        assert acts[|acts| - 1].DoWrite?;
        WriteWithinBound(b, data, t, c, spillOk);
      case DoRead(count) => BytesSuffix(b.mem, Min(count, |b.mem|));
      case DoDrainByType(t) => BytesOfType(b.mem, t);
      case _ =>
    }
  }

  /**
   In every reachable state memory holds at most `maxBytes` of data, or one single oversize entry;
   and with a working table it never exceeds `maxBytes` at all.
   */
  lemma MemoryBound(cfg: Config, acts: seq<Action>)
    ensures var b := Run(cfg, acts).buf;
            && (|AllData(b.mem)| <= cfg.maxBytes || |b.mem| == 1)
            && (cfg.persistent && NoFailedSpill(acts) ==> |AllData(b.mem)| <= cfg.maxBytes)
  {
    RunWithinBound(cfg, acts);
    BytesAreData(Run(cfg, acts).buf.mem);
  }

  // ---- TTL ------------------------------------------------------------------------------

  /** All entries that are not expired, wherever they stand. */
  function Unexpired(mem: seq<Entry>, now: nat, ttl: nat): seq<Entry> {
    if mem == [] then []
    else if Expired(mem[0], now, ttl) then Unexpired(mem[1..], now, ttl)
    else [mem[0]] + Unexpired(mem[1..], now, ttl)
  }

  /** Older entries first, none created after `last`. */
  ghost predicate Aging(mem: seq<Entry>, last: nat) {
    && (forall i, j :: 0 <= i < j < |mem| ==> mem[i].createdAt <= mem[j].createdAt)
    && (forall e :: e in mem ==> e.createdAt <= last)
  }

  lemma AgingTail(mem: seq<Entry>, last: nat)
    requires mem != [] && Aging(mem, last)
    ensures Aging(mem[1..], last)
    ensures forall e :: e in mem ==> mem[0].createdAt <= e.createdAt
  {
  }

  lemma {:induction false} LiveAreKept(mem: seq<Entry>, now: nat, ttl: nat)
    requires forall e :: e in mem ==> !Expired(e, now, ttl)
    ensures Unexpired(mem, now, ttl) == mem
  {
    if mem != [] {
      assert mem == [mem[0]] + mem[1..];
      LiveAreKept(mem[1..], now, ttl);
    }
  }

  lemma {:induction false} PopIsFilter(mem: seq<Entry>, now: nat, ttl: nat, last: nat)
    requires Aging(mem, last)
    ensures mem[ExpiredFront(mem, now, ttl)..] == Unexpired(mem, now, ttl)
  {
    if mem != [] {
      AgingTail(mem, last);
      if Expired(mem[0], now, ttl) {
        var n := ExpiredFront(mem[1..], now, ttl);
        PopIsFilter(mem[1..], now, ttl, last);
        assert mem[1 + n..] == mem[1..][n..];
      } else {
        LiveAreKept(mem, now, ttl);
        assert mem[0..] == mem;
      }
    }
  }

  lemma {:induction false} OfTypeAging(mem: seq<Entry>, t: DataType, m: bool, last: nat)
    requires Aging(mem, last)
    ensures Aging(OfType(mem, t, m), last)
    ensures forall e :: e in OfType(mem, t, m) ==> e in mem
  {
    if mem != [] {
      OfTypeAging(mem[1..], t, m, last);
      assert forall e :: e in mem[1..] ==> e in mem && mem[0].createdAt <= e.createdAt;
    }
  }

  lemma SuffixAging(mem: seq<Entry>, n: nat, last: nat)
    requires n <= |mem| && Aging(mem, last)
    ensures Aging(mem[n..], last)
  {
  }

  lemma AppendAging(mem: seq<Entry>, e: Entry, last: nat, last': nat)
    requires Aging(mem, last) && last <= e.createdAt <= last'
    ensures Aging(mem + [e], last')
  {
    forall i, j | 0 <= i < j < |mem + [e]|
      ensures (mem + [e])[i].createdAt <= (mem + [e])[j].createdAt
    {
      assert mem[i] in mem;
    }
  }

  lemma WriteAging(b: Buffer, data: seq<byte>, t: DataType, c: Clock, spillOk: bool, last: nat)
    requires Aging(b.mem, last) && last <= c.created <= c.now
    ensures Aging(Write(b, data, t, c, spillOk).mem, c.now)
  {
    var x := Expire(b, c.now, c.wall);
    SuffixAging(b.mem, ExpiredFront(b.mem, c.now, b.cfg.ttlNanos), last);
    var n := EvictionCount(x.mem, |data|, x.cfg.maxBytes);
    SuffixAging(x.mem, n, last);
    AppendAging(x.mem[n..], Entry(b.nextSeq, c.created, data, t, None), last, c.now);
  }

  lemma {:induction false} RunAging(cfg: Config, acts: seq<Action>)
    requires InstantsMonotone(acts)
    ensures Aging(Run(cfg, acts).buf.mem, LastInstant(acts))
  {
    if acts != [] {
      var before, a := acts[..|acts| - 1], acts[|acts| - 1];
      RunAging(cfg, before);
      var b := Run(cfg, before).buf;
      match a
      case DoWrite(data, t, c, spillOk) => WriteAging(b, data, t, c, spillOk, LastInstant(before));
      case DoRead(count) => SuffixAging(b.mem, Min(count, |b.mem|), LastInstant(before));
      case DoDrainByType(t) => OfTypeAging(b.mem, t, false, LastInstant(before));
      case _ =>
    }
  }

  /** Popping expired entries from the front removes every expired entry, because the deque is in age order. */
  lemma ExpiryLeavesNoneExpired(cfg: Config, acts: seq<Action>, now: nat, wall: int)
    requires InstantsMonotone(acts)
    ensures var b := Run(cfg, acts).buf;
            Expire(b, now, wall).mem == Unexpired(b.mem, now, b.cfg.ttlNanos)
  {
    RunAging(cfg, acts);
    var b := Run(cfg, acts).buf;
    PopIsFilter(b.mem, now, b.cfg.ttlNanos, LastInstant(acts));
  }
}
