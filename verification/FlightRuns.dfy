/**
 Runs in which the flush loop does not have the buffer to itself: it drains, then sends entry by entry while
 writes, reads, expiry and deletion go on between the sends. One flush runs at a time. An entry's row can go
 while the entry is on its way; such an entry is delivered although it was also expired or deleted, and that is
 the only way a number comes to be in two places. Nothing is delivered twice all the same.
 */
module FlightRuns {
  import opened Basics
  import opened EdgeBufferModel
  import opened EdgeBufferLemmas
  import opened DeliveryRuns
  import opened FlushGuarantees

  /** `queue` is what the flush in progress has still to send, `late` the numbers sent after their row had gone. */
  datatype Flight = Flight(s: System, queue: seq<Entry>, late: seq<nat>)

  /** An action of others, the drain that begins a flush, or the next send with its answer. */
  datatype Move = Act(a: Action) | Drain(at: nat) | Send(ok: bool)

  /** The numbers of the entries that only the flush holds: those with no row behind them. */
  function Unbacked(queue: seq<Entry>): seq<nat> {
    if queue == [] then []
    else if queue[0].rowId.None? then [queue[0].seqNo] + Unbacked(queue[1..])
    else Unbacked(queue[1..])
  }

  /** The numbers of the entries with a row behind them. */
  function Backed(queue: seq<Entry>): seq<nat> {
    if queue == [] then []
    else if queue[0].rowId.Some? then [queue[0].seqNo] + Backed(queue[1..])
    else Backed(queue[1..])
  }

  /** A row id of the table. */
  predicate Known(rows: seq<Row>, id: nat) {
    id in Ids(rows)
  }

  function Begin(t: Flight, at: nat): Flight {
    if t.queue != [] then t
    else Flight(t.s.(buf := t.s.buf.(mem := [])), Drained(t.s.buf, at), t.late)
  }

  function SendNext(t: Flight, ok: bool): Flight
    requires t.queue != []
  {
    var e, s, b := t.queue[0], t.s, t.s.buf;
    var after := b.(rows := Settled(b.rows, e.rowId, ok));
    if ok then
      Flight(s.(buf := after, delivered := s.delivered + [e.seqNo]), t.queue[1..],
             if e.rowId.Some? && !Known(b.rows, e.rowId.value) then t.late + [e.seqNo] else t.late)
    else
      Flight(s.(buf := after, dropped := s.dropped + Unbacked(t.queue)), [], t.late)
  }

  /** Flushes are made of drains and sends here, so the flush in one go is not among the actions of others. */
  function Next(t: Flight, m: Move): Flight {
    match m
    case Act(a) => if a.DoFlush? then t else t.(s := Step(t.s, a))
    case Drain(at) => Begin(t, at)
    case Send(ok) => if t.queue == [] then t else SendNext(t, ok)
  }

  function Fly(cfg: Config, moves: seq<Move>): Flight {
    if moves == [] then Flight(Start(cfg), [], []) else Next(Fly(cfg, moves[..|moves| - 1]), moves[|moves| - 1])
  }

  predicate Hands(m: Move) {
    m.Act? && m.a.DoWrite?
  }

  function Handed(moves: seq<Move>): nat {
    if moves == [] then 0
    else Handed(moves[..|moves| - 1]) + if Hands(moves[|moves| - 1]) then 1 else 0
  }

  // ---- What the flush holds --------------------------------------------------------

  /** How often `n` was expired or deleted. */
  function Removed(s: System, n: nat): nat {
    Count(s.expired, n) + Count(s.deleted, n)
  }

  /** An entry on its way still finds its row unsent, or the row was expired or deleted. */
  ghost predicate Afloat(s: System, e: Entry) {
    match e.rowId
    case None => true
    case Some(id) =>
      && id < s.buf.nextRowId
      && (forall r :: r in s.buf.rows && r.id == id ==> !r.sent && r.seqNo == e.seqNo)
      && (Known(s.buf.rows, id) || Removed(s, e.seqNo) >= 1)
  }

  ghost predicate DistinctRowIds(queue: seq<Entry>) {
    queue != [] ==>
      && DistinctRowIds(queue[1..])
      && (queue[0].rowId.Some? ==> forall e :: e in queue[1..] ==> e.rowId != queue[0].rowId)
  }

  ghost predicate Sound(t: Flight) {
    && Inv(t.s.buf, false)
    && DistinctRowIds(t.queue)
    && forall e :: e in t.queue ==> Afloat(t.s, e)
  }

  lemma RowCounted(rows: seq<Row>, r: Row)
    requires IdsAscend(rows) && r in rows && !r.sent
    ensures PendingCount(rows, r.seqNo) >= 1
  {
    PendingAscend(rows);
    CarriedIff(Pending(rows), r.seqNo);
  }

  /** Placing an entry keeps all rows and may add one with a fresh id. */
  lemma PlaceRows(x: Buffer, e: Entry, wall: int, spillOk: bool)
    ensures var y := Place(x, e, wall, spillOk);
            && y.nextRowId >= x.nextRowId
            && (forall r :: r in x.rows ==> r in y.rows)
            && (forall r :: r in y.rows ==> r in x.rows || r.id == x.nextRowId)
  {
  }

  lemma ExpiredRow(b: Buffer, c: Clock, r: Row)
    requires IdsAscend(b.rows) && r in b.rows && !r.sent
    ensures r in Expire(b, c.now, c.wall).rows || Count(ExpiredOut(b, c.now, c.wall), r.seqNo) >= 1
  {
    var cutoff := Cutoff(b.cfg, c.wall);
    if b.cfg.persistent && r.createdAt < cutoff {
      var gone := Aged(b.rows, cutoff, true);
      AgedAscend(b.rows, cutoff, true);
      RowCounted(gone, r);
      CountConcat(Nums(b.mem[..ExpiredFront(b.mem, c.now, b.cfg.ttlNanos)]), RowNums(Pending(gone)), r.seqNo);
    }
  }

  lemma ExpireAfloat(s: System, c: Clock, e: Entry)
    requires IdsAscend(s.buf.rows) && Afloat(s, e)
    ensures Afloat(s.(buf := Expire(s.buf, c.now, c.wall), expired := s.expired + ExpiredOut(s.buf, c.now, c.wall)), e)
  {
    CountConcat(s.expired, ExpiredOut(s.buf, c.now, c.wall), e.seqNo);
    if e.rowId.Some? && Known(s.buf.rows, e.rowId.value) {
      var r :| r in s.buf.rows && r.id == e.rowId.value;
      ExpiredRow(s.buf, c, r);
    }
  }

  /** New rows with fresh ids leave an entry afloat. */
  lemma GrownAfloat(s: System, t: System, e: Entry)
    requires Afloat(s, e) && t.expired == s.expired && t.deleted == s.deleted
    requires t.buf.nextRowId >= s.buf.nextRowId
    requires forall r :: r in s.buf.rows ==> r in t.buf.rows
    requires forall r :: r in t.buf.rows ==> r in s.buf.rows || r.id == s.buf.nextRowId
    ensures Afloat(t, e)
  {
  }

  /** A write removes a row only by expiring it. */
  lemma WriteAfloat(s: System, a: Action, e: Entry)
    requires Inv(s.buf, false) && a.DoWrite? && Afloat(s, e)
    ensures Afloat(Step(s, a), e)
  {
    var b, c := s.buf, a.clock;
    var x := Expire(b, c.now, c.wall);
    InOrderDistinct(b.rows, false);
    ExpireAfloat(s, c, e);
    var entry := Entry(b.nextSeq, c.created, a.data, a.dataType, None);
    PlaceRows(x.(nextSeq := b.nextSeq + 1), entry, c.spillWall, a.spillOk);
    GrownAfloat(s.(buf := x, expired := s.expired + ExpiredOut(b, c.now, c.wall)), Step(s, a), e);
  }

  lemma DeletedCount(s: System, n: nat)
    ensures Count(Step(s, DoDeleteAll).deleted, n) == Count(s.deleted, n) + Held(s.buf, n)
  {
    CountConcat(s.deleted, Nums(s.buf.mem), n);
    CountConcat(s.deleted + Nums(s.buf.mem), RowNums(Pending(s.buf.rows)), n);
  }

  lemma KnownIsHeld(s: System, e: Entry)
    requires IdsAscend(s.buf.rows) && Afloat(s, e) && e.rowId.Some? && Known(s.buf.rows, e.rowId.value)
    ensures Held(s.buf, e.seqNo) >= 1
  {
    var r :| r in s.buf.rows && r.id == e.rowId.value;
    RowCounted(s.buf.rows, r);
  }

  lemma DeleteAfloat(s: System, e: Entry)
    requires IdsAscend(s.buf.rows) && Afloat(s, e)
    ensures Afloat(Step(s, DoDeleteAll), e)
  {
    DeletedCount(s, e.seqNo);
    if e.rowId.Some? && Known(s.buf.rows, e.rowId.value) {
      KnownIsHeld(s, e);
    }
  }

  lemma StepAfloat(s: System, a: Action, e: Entry)
    requires Inv(s.buf, false) && !a.DoFlush? && Afloat(s, e)
    ensures Afloat(Step(s, a), e)
  {
    match a
    case DoWrite(_, _, _, _) => WriteAfloat(s, a, e);
    case DoDeleteAll =>
      InOrderDistinct(s.buf.rows, false);
      DeleteAfloat(s, e);
    case _ =>
  }

  // ---- Drains and sends keep it sound -------------------------------------------------

  /** Rows changed in nothing but their marks. */
  ghost predicate OnlyMarked(rows: seq<Row>, after: seq<Row>) {
    |after| == |rows|
    && forall i :: 0 <= i < |rows| ==> after[i] == rows[i].(sent := after[i].sent, retryCount := after[i].retryCount)
  }

  lemma MarkedInv(b: Buffer, after: seq<Row>)
    requires Inv(b, false) && OnlyMarked(b.rows, after)
    ensures Inv(b.(rows := after), false)
  {
    forall i, j | 0 <= i < j < |after|
      ensures Before(after[i], after[j], false)
    {
      assert Before(b.rows[i], b.rows[j], false);
    }
    forall r | r in after
      ensures r.id < b.nextRowId && r.seqNo < b.nextSeq && r.priority == 2
    {
      var i :| 0 <= i < |after| && after[i] == r;
      assert b.rows[i] in b.rows;
    }
  }

  lemma MarkedIds(rows: seq<Row>, after: seq<Row>)
    requires OnlyMarked(rows, after)
    ensures Ids(after) == Ids(rows)
  {
    assert forall i :: 0 <= i < |rows| ==> rows[i] in rows && after[i] in after && after[i].id == rows[i].id;
  }

  /** Marking another row as sent leaves an entry afloat. */
  lemma SentAfloat(s: System, t: System, id: nat, e: Entry)
    requires Afloat(s, e) && e.rowId != Some(id)
    requires t.buf == s.buf.(rows := Sent(s.buf.rows, {id})) && t.expired == s.expired && t.deleted == s.deleted
    ensures Afloat(t, e)
  {
    MarkedIds(s.buf.rows, t.buf.rows);
    if e.rowId.Some? {
      forall r | r in t.buf.rows && r.id == e.rowId.value
        ensures !r.sent && r.seqNo == e.seqNo
      {
        var i :| 0 <= i < |t.buf.rows| && t.buf.rows[i] == r;
        assert s.buf.rows[i] in s.buf.rows;
      }
    }
  }

  lemma SameAfloat(s: System, t: System, e: Entry)
    requires Afloat(s, e)
    requires t.buf.rows == s.buf.rows && t.buf.nextRowId == s.buf.nextRowId
    requires t.expired == s.expired && t.deleted == s.deleted
    ensures Afloat(t, e)
  {
  }

  lemma SendSound(t: Flight, ok: bool)
    requires Sound(t) && t.queue != []
    ensures Sound(SendNext(t, ok))
  {
    var e, b, u := t.queue[0], t.s.buf, SendNext(t, ok);
    assert t.queue == [e] + t.queue[1..];
    MarkedInv(b, Settled(b.rows, e.rowId, ok));
    if ok {
      forall f | f in u.queue
        ensures Afloat(u.s, f)
      {
        if e.rowId.Some? {
          SentAfloat(t.s, u.s, e.rowId.value, f);
        } else {
          SameAfloat(t.s, u.s, f);
        }
      }
    }
  }

  lemma MemoryEntry(e: Entry, rest: seq<Entry>)
    requires e.rowId == None
    ensures DistinctRowIds(rest) ==> DistinctRowIds([e] + rest)
    ensures Unbacked([e] + rest) == [e.seqNo] + Unbacked(rest) && Backed([e] + rest) == Backed(rest)
  {
    assert ([e] + rest)[1..] == rest;
  }

  lemma {:induction false} MemoryEntries(mem: seq<Entry>, rest: seq<Entry>)
    requires forall e :: e in mem ==> e.rowId == None
    ensures DistinctRowIds(rest) ==> DistinctRowIds(mem + rest)
    ensures Unbacked(mem + rest) == Nums(mem) + Unbacked(rest) && Backed(mem + rest) == Backed(rest)
  {
    if mem == [] {
      assert mem + rest == rest && Nums(mem) == [];
    } else {
      MemoryEntries(mem[1..], rest);
      MemoryEntry(mem[0], mem[1..] + rest);
      assert mem + rest == [mem[0]] + (mem[1..] + rest);
      assert Nums(mem) + Unbacked(rest) == [mem[0].seqNo] + (Nums(mem[1..]) + Unbacked(rest));
    }
  }

  lemma {:induction false} RowEntries(rows: seq<Row>, at: nat)
    requires DistinctIds(rows)
    ensures DistinctRowIds(ToEntries(rows, at))
    ensures Unbacked(ToEntries(rows, at)) == [] && Backed(ToEntries(rows, at)) == RowNums(rows)
  {
    if rows != [] {
      var es := ToEntries(rows, at);
      RowEntries(rows[1..], at);
      assert es[1..] == ToEntries(rows[1..], at);
      assert RowNums(rows) == [rows[0].seqNo] + RowNums(rows[1..]);
      forall e | e in es[1..]
        ensures e.rowId != es[0].rowId
      {
        var i :| 0 <= i < |es[1..]| && es[1..][i] == e;
        assert rows[1..][i] in rows[1..] && e.rowId == Some(rows[1..][i].id);
        assert rows[1..][i].id in Ids(rows[1..]);
      }
    }
  }

  /** What a drain hands out: all of memory with nothing behind it, and a batch of rows. */
  lemma DrainedParts(b: Buffer, at: nat)
    requires Inv(b, false)
    ensures DistinctRowIds(Drained(b, at))
    ensures Unbacked(Drained(b, at)) == Nums(b.mem) && Backed(Drained(b, at)) == RowNums(Batch(b.rows))
  {
    InOrderDistinct(b.rows, false);
    BatchKeeps(b.rows);
    RowEntries(Batch(b.rows), at);
    MemoryEntries(b.mem, ToEntries(Batch(b.rows), at));
    assert Nums(b.mem) + [] == Nums(b.mem);
  }

  lemma BatchAfloat(s: System, at: nat, e: Entry)
    requires Inv(s.buf, false) && e in ToEntries(Batch(s.buf.rows), at)
    ensures Afloat(s, e)
  {
    var rows := s.buf.rows;
    var batch := Batch(rows);
    var i :| 0 <= i < |batch| && ToEntries(batch, at)[i] == e;
    InOrderDistinct(rows, false);
    BatchTakesFirst(rows);
    assert batch[i] in batch && batch[i] in rows;
    forall r | r in rows && r.id == batch[i].id
      ensures r == batch[i]
    {
      SameRow(rows, r, batch[i]);
    }
  }

  lemma SameRow(rows: seq<Row>, r: Row, q: Row)
    requires IdsAscend(rows) && r in rows && q in rows && r.id == q.id
    ensures r == q
  {
    var i :| 0 <= i < |rows| && rows[i] == r;
    var j :| 0 <= j < |rows| && rows[j] == q;
  }

  lemma BeginSound(t: Flight, at: nat)
    requires Sound(t)
    ensures Sound(Begin(t, at))
  {
    if t.queue == [] {
      var u := Begin(t, at);
      DrainedParts(t.s.buf, at);
      forall e | e in u.queue
        ensures Afloat(u.s, e)
      {
        if e !in t.s.buf.mem {
          BatchAfloat(t.s, at, e);
          SameAfloat(t.s, u.s, e);
        }
      }
    }
  }

  lemma NextSound(t: Flight, m: Move)
    requires Sound(t)
    ensures Sound(Next(t, m))
  {
    match m
    case Act(a) =>
      if !a.DoFlush? {
        StepInv(t.s, a, false);
        forall e | e in t.queue
          ensures Afloat(Step(t.s, a), e)
        {
          StepAfloat(t.s, a, e);
        }
      }
    case Drain(at) => BeginSound(t, at);
    case Send(ok) =>
      if t.queue != [] {
        SendSound(t, ok);
      }
  }

  lemma {:induction false} FlySound(cfg: Config, moves: seq<Move>)
    ensures Sound(Fly(cfg, moves))
  {
    if moves != [] {
      FlySound(cfg, moves[..|moves| - 1]);
      NextSound(Fly(cfg, moves[..|moves| - 1]), moves[|moves| - 1]);
    }
  }

  // ---- Conservation ---------------------------------------------------------------------

  /** How often `n` is anywhere: held by the buffer, held by the flush alone, or gone. */
  function Tally(t: Flight, n: nat): nat {
    Held(t.s.buf, n) + Count(Unbacked(t.queue), n) + Gone(t.s, n)
  }

  /** How often a send settles a row that `n` is still pending in. */
  lemma SentTally(rows: seq<Row>, id: nat, num: nat, n: nat)
    requires IdsAscend(rows)
    requires forall r :: r in rows && r.id == id ==> !r.sent && r.seqNo == num
    ensures PendingCount(rows, n)
         == PendingCount(Sent(rows, {id}), n) + if Known(rows, id) && num == n then 1 else 0
  {
    IncreasingIdsDistinct(rows);
    PendingSent(rows, {id});
    PendingDistinct(rows);
    if Known(rows, id) {
      var r :| r in rows && r.id == id;
      WithoutOne(Pending(rows), r, n);
    } else {
      assert {id} !! Ids(Pending(rows));
      WithoutNothing(Pending(rows), {id});
    }
  }

  lemma UnbackedCons(e: Entry, rest: seq<Entry>, n: nat)
    ensures Count(Unbacked([e] + rest), n) == Count(Unbacked(rest), n) + if e.rowId.None? && e.seqNo == n then 1 else 0
    ensures Count(Backed([e] + rest), n) == Count(Backed(rest), n) + if e.rowId.Some? && e.seqNo == n then 1 else 0
  {
    assert ([e] + rest)[1..] == rest;
    CountCons(e.seqNo, Unbacked(rest), n);
    CountCons(e.seqNo, Backed(rest), n);
  }

  lemma AcceptTally(t: Flight, n: nat)
    requires Sound(t) && t.queue != []
    ensures var u := SendNext(t, true);
            Tally(u, n) + Count(t.late, n) == Tally(t, n) + Count(u.late, n)
  {
    var e, rows := t.queue[0], t.s.buf.rows;
    assert t.queue == [e] + t.queue[1..];
    UnbackedCons(e, t.queue[1..], n);
    CountSnoc(t.s.delivered, e.seqNo, n);
    CountSnoc(t.late, e.seqNo, n);
    InOrderDistinct(rows, false);
    assert Afloat(t.s, e);
    if e.rowId.Some? {
      SentTally(rows, e.rowId.value, e.seqNo, n);
    }
  }

  lemma RefuseTally(t: Flight, n: nat)
    requires Sound(t) && t.queue != []
    ensures Tally(SendNext(t, false), n) == Tally(t, n)
  {
    var e := t.queue[0];
    CountConcat(t.s.dropped, Unbacked(t.queue), n);
    if e.rowId.Some? {
      PendingRetried(t.s.buf.rows, e.rowId.value);
    }
  }

  lemma BeginTally(t: Flight, at: nat, n: nat)
    requires Sound(t)
    ensures Tally(Begin(t, at), n) == Tally(t, n)
  {
    if t.queue == [] {
      DrainedParts(t.s.buf, at);
      MemoryEmptied(Begin(t, at).s.buf, n);
    }
  }

  lemma NextTally(t: Flight, m: Move, n: nat)
    requires Sound(t)
    ensures Tally(Next(t, m), n) + Count(t.late, n)
         == Tally(t, n) + Count(Next(t, m).late, n) + if Hands(m) && n == t.s.buf.nextSeq then 1 else 0
    ensures Next(t, m).s.buf.nextSeq == t.s.buf.nextSeq + if Hands(m) then 1 else 0
  {
    match m
    case Act(a) =>
      InOrderDistinct(t.s.buf.rows, false);
      StepConserves(t.s, a, n);
    case Drain(at) => BeginTally(t, at, n);
    case Send(ok) =>
      if t.queue != [] {
        if ok {
          AcceptTally(t, n);
        } else {
          RefuseTally(t, n);
        }
      }
  }

  /**
   Over every run with sends and other actions in any order: a number handed out is in exactly one place, with
   the flush in progress as one of them, and once more if it was sent after its row had gone.
   */
  lemma {:induction false} EveryNumberAccountedFor(cfg: Config, moves: seq<Move>, n: nat)
    ensures Fly(cfg, moves).s.buf.nextSeq == 1 + Handed(moves)
    ensures Tally(Fly(cfg, moves), n) == Due(n, Handed(moves)) + Count(Fly(cfg, moves).late, n)
  {
    if moves != [] {
      var before := moves[..|moves| - 1];
      EveryNumberAccountedFor(cfg, before, n);
      FlySound(cfg, before);
      NextTally(Fly(cfg, before), moves[|moves| - 1], n);
    }
  }

  // ---- Late sends ------------------------------------------------------------------------

  /** `n` was sent late at most once, is not on its way again, was delivered then and had been expired or deleted. */
  ghost predicate LateOk(t: Flight, n: nat) {
    && Count(t.late, n) + Count(Backed(t.queue), n) <= 1
    && Count(t.late, n) <= Count(t.s.delivered, n)
    && (Count(t.late, n) >= 1 ==> Removed(t.s, n) >= 1)
  }

  lemma BatchCount(rows: seq<Row>, n: nat)
    requires DistinctIds(rows)
    ensures Count(RowNums(Batch(rows)), n) <= PendingCount(rows, n)
  {
    BatchKeeps(rows);
    PendingDistinct(rows);
    WithoutBatch(Pending(rows), Batch(rows), n);
  }

  lemma BeginLate(t: Flight, at: nat, n: nat)
    requires Sound(t) && LateOk(t, n) && Tally(t, n) <= 1 + Count(t.late, n)
    ensures LateOk(Begin(t, at), n)
  {
    if t.queue == [] {
      InOrderDistinct(t.s.buf.rows, false);
      DrainedParts(t.s.buf, at);
      BatchCount(t.s.buf.rows, n);
    }
  }

  lemma SendLate(t: Flight, ok: bool, n: nat)
    requires Sound(t) && t.queue != [] && LateOk(t, n)
    ensures LateOk(SendNext(t, ok), n)
  {
    var e := t.queue[0];
    assert t.queue == [e] + t.queue[1..] && Afloat(t.s, e);
    UnbackedCons(e, t.queue[1..], n);
    CountSnoc(t.s.delivered, e.seqNo, n);
    CountSnoc(t.late, e.seqNo, n);
  }

  /** Actions of others only add to what has left. */
  lemma StepRemoved(s: System, a: Action, n: nat)
    requires !a.DoFlush?
    ensures Removed(Step(s, a), n) >= Removed(s, n) && Step(s, a).delivered == s.delivered
  {
    var b := s.buf;
    match a
    case DoWrite(_, _, c, _) => CountConcat(s.expired, ExpiredOut(b, c.now, c.wall), n);
    case DoDeleteAll => DeletedCount(s, n);
    case _ =>
  }

  lemma NextLate(t: Flight, m: Move, n: nat)
    requires Sound(t) && LateOk(t, n) && Tally(t, n) <= 1 + Count(t.late, n)
    ensures LateOk(Next(t, m), n)
  {
    match m
    case Act(a) =>
      if !a.DoFlush? {
        StepRemoved(t.s, a, n);
      }
    case Drain(at) => BeginLate(t, at, n);
    case Send(ok) =>
      if t.queue != [] {
        SendLate(t, ok, n);
      }
  }

  lemma {:induction false} FlyLate(cfg: Config, moves: seq<Move>, n: nat)
    ensures LateOk(Fly(cfg, moves), n)
  {
    if moves != [] {
      var before := moves[..|moves| - 1];
      FlyLate(cfg, before, n);
      FlySound(cfg, before);
      EveryNumberAccountedFor(cfg, before, n);
      NextLate(Fly(cfg, before), moves[|moves| - 1], n);
    }
  }

  /** Whatever goes on between the sends, no number is delivered twice. */
  lemma DeliveredAtMostOnce(cfg: Config, moves: seq<Move>, n: nat)
    ensures Count(Fly(cfg, moves).s.delivered, n) <= 1
  {
    FlyLate(cfg, moves, n);
    EveryNumberAccountedFor(cfg, moves, n);
  }

  /**
   A number is both delivered and expired or deleted exactly when it was sent after its row had gone; and then
   it is nowhere else.
   */
  lemma InTwoPlacesIff(cfg: Config, moves: seq<Move>, n: nat)
    ensures var t := Fly(cfg, moves);
            && (n in t.late <==> Count(t.s.delivered, n) >= 1 && Removed(t.s, n) >= 1)
            && Tally(t, n) == (if n in t.late then 2 else Due(n, Handed(moves)))
            && (n in t.late ==> Count(t.s.delivered, n) == 1 && Removed(t.s, n) == 1)
  {
    FlyLate(cfg, moves, n);
    EveryNumberAccountedFor(cfg, moves, n);
    CountedIff(Fly(cfg, moves).late, n);
  }

  // ---- What is lost ---------------------------------------------------------------------

  lemma {:induction false} UnbackedNoneIff(queue: seq<Entry>)
    ensures Unbacked(queue) == [] <==> forall e :: e in queue ==> e.rowId.Some?
  {
    if queue != [] {
      UnbackedNoneIff(queue[1..]);
      assert queue == [queue[0]] + queue[1..];
    }
  }

  /** A move that loses nothing: a careful action, or a send that is not refused while entries without a row wait. */
  ghost predicate CarefulMove(t: Flight, m: Move) {
    match m
    case Act(a) => a.DoFlush? || Careful(t.s.buf, a)
    case Drain(_) => true
    case Send(ok) => ok || forall e :: e in t.queue ==> e.rowId.Some?
  }

  lemma MoveLosesIff(t: Flight, m: Move)
    ensures NothingLost(Next(t, m).s) <==> NothingLost(t.s) && CarefulMove(t, m)
  {
    match m
    case Act(a) => StepLosesIff(t.s, a);
    case Drain(_) =>
    case Send(ok) =>
      UnbackedNoneIff(t.queue);
      ExtendsIff(t.s.dropped, Unbacked(t.queue));
  }

  /** Every move of a run is careful. */
  ghost predicate CarefulFlight(cfg: Config, moves: seq<Move>) {
    moves != [] ==>
      var n := |moves| - 1;
      CarefulFlight(cfg, moves[..n]) && CarefulMove(Fly(cfg, moves[..n]), moves[n])
  }

  lemma {:induction false} FlightLosesIff(cfg: Config, moves: seq<Move>)
    ensures NothingLost(Fly(cfg, moves).s) <==> CarefulFlight(cfg, moves)
  {
    if moves != [] {
      var n := |moves| - 1;
      FlightLosesIff(cfg, moves[..n]);
      MoveLosesIff(Fly(cfg, moves[..n]), moves[n]);
    }
  }

  /** How often `n` is held, on its way, or gone as it should be. */
  function There(t: Flight, n: nat): nat {
    Held(t.s.buf, n) + Count(Unbacked(t.queue), n) + Kept(t.s, n)
  }

  /** A number is somewhere unless it was lost. */
  lemma ThereIff(cfg: Config, moves: seq<Move>, n: nat)
    ensures var t := Fly(cfg, moves);
            Lost(t.s, n) == if 1 <= n <= Handed(moves) && There(t, n) == 0 then 1 else 0
  {
    InTwoPlacesIff(cfg, moves, n);
    FlyLate(cfg, moves, n);
    CountedIff(Fly(cfg, moves).late, n);
  }

  lemma AllThereIff(t: Flight, handed: nat)
    requires forall n: nat :: Lost(t.s, n) == if 1 <= n <= handed && There(t, n) == 0 then 1 else 0
    ensures (forall n: nat :: 1 <= n <= handed ==> There(t, n) >= 1) <==> NothingLost(t.s)
  {
    NoCountsIff(t.s.displaced, t.s.dropped);
    if forall n: nat :: 1 <= n <= handed ==> There(t, n) >= 1 {
      forall n ensures Count(t.s.displaced, n) + Count(t.s.dropped, n) == 0 {
        assert Lost(t.s, n) == 0;
      }
    }
    if NothingLost(t.s) {
      forall n: nat | 1 <= n <= handed ensures There(t, n) >= 1 {
        assert Lost(t.s, n) == 0;
      }
    }
  }

  /**
   Whatever goes on between the sends: every number handed out is still held, on its way, or was delivered, read out,
   expired or deleted, if and only if every write fits, spills or finds nothing to evict and no send is refused while
   entries that no row backs are still to go. A refused send loses exactly those (`RefusalLoses`).
   */
  lemma NoDataLossInFlightIff(cfg: Config, moves: seq<Move>)
    ensures (forall n: nat :: 1 <= n <= Handed(moves) ==> There(Fly(cfg, moves), n) >= 1)
       <==> CarefulFlight(cfg, moves)
  {
    var t := Fly(cfg, moves);
    forall n: nat
      ensures Lost(t.s, n) == if 1 <= n <= Handed(moves) && There(t, n) == 0 then 1 else 0
    {
      ThereIff(cfg, moves, n);
    }
    AllThereIff(t, Handed(moves));
    FlightLosesIff(cfg, moves);
  }

  /** What a refused send loses, number by number. */
  lemma RefusalLoses(t: Flight, n: nat)
    requires Sound(t) && t.queue != []
    ensures There(t, n) - There(SendNext(t, false), n) == Count(Unbacked(t.queue), n)
  {
    if t.queue[0].rowId.Some? {
      PendingRetried(t.s.buf.rows, t.queue[0].rowId.value);
    }
  }

  /** One pending row is drained, the backlog is deleted, and then the row's entry is sent. */
  lemma DrainDeleteSend(t: Flight, r: Row, at: nat)
    requires t.queue == [] && t.s.buf.mem == [] && t.s.buf.rows == [r] && !r.sent
    ensures var u := Next(Next(Next(t, Drain(at)), Act(DoDeleteAll)), Send(true));
            && u.late == t.late + [r.seqNo] && u.s.delivered == t.s.delivered + [r.seqNo]
            && u.s.deleted == t.s.deleted + [r.seqNo]
  {
    DrainOne(t.s.buf, r, at);
    var drained := Next(t, Drain(at));
    assert drained.queue == [ToEntry(r, at)];
    var deleted := Next(drained, Act(DoDeleteAll));
    assert Nums([]) == [] && RowNums([r]) == [r.seqNo];
    assert t.s.deleted + [] + [r.seqNo] == t.s.deleted + [r.seqNo];
    assert deleted.queue == drained.queue && deleted.s.buf.rows == [];
  }

  /** Such a run: an entry goes to the table, a flush takes it up, the backlog is deleted, and then it is sent. */
  lemma LateSend(x: byte, dt: DataType, c: Clock, at: nat)
    ensures var moves := [Act(DoWrite([x], dt, c, true)), Drain(at), Act(DoDeleteAll), Send(true)];
            var t := Fly(Config(0, 0, true), moves);
            t.late == [1] && t.s.delivered == [1] && t.s.deleted == [1]
  {
    var cfg, write := Config(0, 0, true), Act(DoWrite([x], dt, c, true));
    var first := Fly(cfg, [write]);
    FlySnoc(cfg, [], write);
    assert [] + [write] == [write];
    FirstSpill(cfg, x, dt, c);
    FlyFour(cfg, write, Drain(at), Act(DoDeleteAll), Send(true));
    DrainDeleteSend(first, Row(1, 1, [x], dt.Name(), 2, c.spillWall, 0, false), at);
  }

  lemma FlyFour(cfg: Config, k: Move, l: Move, m: Move, n: Move)
    ensures Fly(cfg, [k, l, m, n]) == Next(Next(Next(Fly(cfg, [k]), l), m), n)
  {
    FlySnoc(cfg, [k], l);
    FlySnoc(cfg, [k, l], m);
    FlySnoc(cfg, [k, l, m], n);
    assert [k] + [l] == [k, l] && [k, l] + [m] == [k, l, m] && [k, l, m] + [n] == [k, l, m, n];
  }

  lemma FlySnoc(cfg: Config, moves: seq<Move>, m: Move)
    ensures Fly(cfg, moves + [m]) == Next(Fly(cfg, moves), m)
  {
    assert (moves + [m])[..|moves|] == moves;
  }

  lemma FirstSpill(cfg: Config, x: byte, dt: DataType, c: Clock)
    requires cfg.persistent && cfg.maxBytes == 0
    ensures Step(Start(cfg), DoWrite([x], dt, c, true))
         == Start(cfg).(buf := Buffer(cfg, 2, [], [Row(1, 1, [x], dt.Name(), 2, c.spillWall, 0, false)], 2))
  {
    assert Bytes([]) == 0 && Aged([], Cutoff(cfg, c.wall), true) == [];
  }

  lemma DrainOne(b: Buffer, r: Row, at: nat)
    requires b.mem == [] && b.rows == [r] && !r.sent
    ensures Drained(b, at) == [ToEntry(r, at)] && Pending(b.rows) == [r]
  {
    PendingCons(r, []);
    assert [r] + [] == [r];
    assert OrderBy([r]) == [r] by {
      assert [r][1..] == [];
    }
  }

  // ---- A flush left to itself -----------------------------------------------------------------

  /** All sends of a flush with nothing in between; `ok(i)` answers the i-th. */
  function SendAll(t: Flight, ok: nat -> bool, i: nat): Flight
    decreases |t.queue|
  {
    if t.queue == [] then t else SendAll(SendNext(t, ok(i)), ok, i + 1)
  }

  /** Where such a flush stands once `i` sends got through. */
  ghost function Midway(t: Flight, at: nat, i: nat): Flight
    requires i <= |Drained(t.s.buf, at)|
  {
    var b, all := t.s.buf, Drained(t.s.buf, at);
    var s := t.s.(buf := b.(mem := [], rows := SentSoFar(b, i)), delivered := t.s.delivered + Nums(all[..i]));
    Flight(s, all[i..], t.late)
  }

  lemma MidwayAccepts(t: Flight, at: nat, i: nat)
    requires Inv(t.s.buf, false) && i < |Drained(t.s.buf, at)|
    ensures SendNext(Midway(t, at, i), true) == Midway(t, at, i + 1)
  {
    var b, all := t.s.buf, Drained(t.s.buf, at);
    var e := all[i];
    assert NoRowIds(b.mem);
    DrainedEntry(b, at, i);
    AcceptedRows(b, at, i);
    assert all[i..][0] == e && all[i..][1..] == all[i + 1..];
    assert Nums(all[..i + 1]) == Nums(all[..i]) + [e.seqNo];
    assert (t.s.delivered + Nums(all[..i])) + [e.seqNo] == t.s.delivered + Nums(all[..i + 1]);
    if e.rowId.Some? {
      BatchKnown(b.rows, i - |b.mem|);
      assert Ids(SentSoFar(b, i)) == Ids(b.rows) by {
        MarkedIds(b.rows, SentSoFar(b, i));
      }
    }
  }

  lemma BatchKnown(rows: seq<Row>, d: nat)
    requires InOrder(rows, false) && d < |Batch(rows)|
    ensures Known(rows, Batch(rows)[d].id)
  {
    InOrderDistinct(rows, false);
    BatchTakesFirst(rows);
    assert Batch(rows)[d] in Batch(rows);
  }

  lemma SuffixUnbacked(mem: seq<Entry>, batch: seq<Entry>, i: nat)
    requires i <= |mem| && (forall e :: e in mem ==> e.rowId == None) && Unbacked(batch) == []
    ensures Unbacked(mem[i..] + batch) == Nums(mem)[i..]
  {
    assert forall e :: e in mem[i..] ==> e in mem;
    MemoryEntries(mem[i..], batch);
    assert Nums(mem[i..]) + [] == Nums(mem)[i..];
  }

  lemma MemoryRestUnbacked(b: Buffer, at: nat, i: nat)
    requires Inv(b, false) && i <= |b.mem|
    ensures Unbacked(Drained(b, at)[i..]) == Nums(b.mem)[i..]
  {
    var batch := ToEntries(Batch(b.rows), at);
    InOrderDistinct(b.rows, false);
    BatchKeeps(b.rows);
    RowEntries(Batch(b.rows), at);
    SuffixUnbacked(b.mem, batch, i);
    assert Drained(b, at)[i..] == b.mem[i..] + batch;
  }

  lemma RowRestUnbacked(b: Buffer, at: nat, i: nat)
    requires Inv(b, false) && |b.mem| < i <= |Drained(b, at)|
    ensures Unbacked(Drained(b, at)[i..]) == []
  {
    var batch, d := Batch(b.rows), i - |b.mem|;
    assert Drained(b, at)[i..] == ToEntries(batch[d..], at);
    InOrderDistinct(b.rows, false);
    BatchKeeps(b.rows);
    SuffixDistinct(batch, d);
    RowEntries(batch[d..], at);
  }

  lemma RestUnbacked(b: Buffer, at: nat, i: nat)
    requires Inv(b, false) && i <= |Drained(b, at)|
    ensures Unbacked(Drained(b, at)[i..]) == Nums(b.mem)[Min(|b.mem|, i)..]
  {
    if i <= |b.mem| {
      MemoryRestUnbacked(b, at, i);
    } else {
      RowRestUnbacked(b, at, i);
    }
  }

  lemma {:induction false} SuffixDistinct(rows: seq<Row>, d: nat)
    requires DistinctIds(rows) && d <= |rows|
    ensures DistinctIds(rows[d..])
  {
    if d > 0 {
      SuffixDistinct(rows[1..], d - 1);
      assert rows[d..] == rows[1..][d - 1..];
    } else {
      assert rows[0..] == rows;
    }
  }

  /** The flush in one go that ends at its `k`-th send. */
  lemma FlushInOneGo(s: System, at: nat, ok: nat -> bool, k: nat)
    requires k <= |Drained(s.buf, at)| && forall i :: 0 <= i < k ==> ok(i)
    requires k < |Drained(s.buf, at)| ==> !ok(k)
    ensures var b := s.buf;
            Step(s, DoFlush(ok))
            == s.(buf := b.(mem := [], rows := EndRows(b, k)),
                  delivered := s.delivered + Nums(Drained(b, at)[..k]),
                  dropped := s.dropped + Nums(b.mem)[Min(|b.mem|, k)..])
  {
    FlushEnds(s.buf, at, ok, k);
  }

  lemma MidwayRefused(t: Flight, at: nat, ok: nat -> bool, i: nat)
    requires Inv(t.s.buf, false) && i < |Drained(t.s.buf, at)| && !ok(i) && forall j :: 0 <= j < i ==> ok(j)
    ensures SendNext(Midway(t, at, i), false) == t.(s := Step(t.s, DoFlush(ok)), queue := [])
  {
    RefusedRows(t.s.buf, at, i);
    FlushInOneGo(t.s, at, ok, i);
    RestUnbacked(t.s.buf, at, i);
  }

  lemma MidwayDone(t: Flight, at: nat, ok: nat -> bool)
    requires forall j :: 0 <= j < |Drained(t.s.buf, at)| ==> ok(j)
    ensures Midway(t, at, |Drained(t.s.buf, at)|) == t.(s := Step(t.s, DoFlush(ok)), queue := [])
  {
    var n := |Drained(t.s.buf, at)|;
    FlushInOneGo(t.s, at, ok, n);
    assert Nums(t.s.buf.mem)[Min(|t.s.buf.mem|, n)..] == [] && t.s.dropped + [] == t.s.dropped;
  }

  /** Sends that go from each of some states to the next lead to the last. */
  lemma {:induction false} SendsLead(mid: nat -> Flight, k: nat, end: Flight, ok: nat -> bool, i: nat)
    requires i <= k && end.queue == []
    requires forall j :: i <= j < k ==> mid(j).queue != [] && SendNext(mid(j), ok(j)) == mid(j + 1)
    requires mid(k) == end || (mid(k).queue != [] && SendNext(mid(k), ok(k)) == end)
    ensures SendAll(mid(i), ok, i) == end
    decreases k - i
  {
    if i < k {
      SendsLead(mid, k, end, ok, i + 1);
    }
  }

  /** The states of a flush, and the sends between them. */
  lemma MidwayEnds(t: Flight, at: nat, ok: nat -> bool)
    requires Inv(t.s.buf, false) && t.queue == []
    ensures SendAll(Midway(t, at, 0), ok, 0) == t.(s := Step(t.s, DoFlush(ok)))
  {
    var n := |Drained(t.s.buf, at)|;
    var k := FirstFailure(ok, n);
    var mid := (j: nat) => if j <= n then Midway(t, at, j) else t;
    forall j | 0 <= j < k
      ensures mid(j).queue != [] && SendNext(mid(j), ok(j)) == mid(j + 1)
    {
      MidwayAccepts(t, at, j);
    }
    var end := t.(s := Step(t.s, DoFlush(ok)), queue := []);
    assert mid(k) == end || (mid(k).queue != [] && SendNext(mid(k), ok(k)) == end) by {
      if k == n {
        MidwayDone(t, at, ok);
      } else {
        MidwayRefused(t, at, ok, k);
      }
    }
    SendsLead(mid, k, end, ok, 0);
  }

  /** With nothing in between, a drain and its sends are exactly the flush of the other run theorems. */
  lemma UninterruptedFlush(t: Flight, at: nat, ok: nat -> bool)
    requires Sound(t) && t.queue == []
    ensures SendAll(Begin(t, at), ok, 0) == t.(s := Step(t.s, DoFlush(ok)))
  {
    var all := Drained(t.s.buf, at);
    assert all[0..] == all && Nums(all[..0]) == [] && t.s.delivered + [] == t.s.delivered;
    assert Begin(t, at) == Midway(t, at, 0);
    MidwayEnds(t, at, ok);
  }
}
