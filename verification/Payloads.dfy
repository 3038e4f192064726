/**
 What the buffered entries carry. Over whole runs every entry in memory, every row and every entry handed out
 under some number carries exactly the data and the type that were handed to the write that got that number;
 and what a write does is said in terms of ages and of the bytes themselves.
 */
module Payloads {
  import opened Basics
  import opened EdgeBufferModel
  import opened EdgeBufferLemmas
  import opened DeliveryRuns
  import opened FlushGuarantees
  import E = EdgeBuffer

  // ---- What was written ----------------------------------------------------------------

  /** The write that got number `n`, read off the actions alone: the n-th one. */
  function NthWrite(acts: seq<Action>, n: nat): (a: Option<Action>)
    ensures a.Some? ==> a.value.DoWrite? && 1 <= n <= Writes(acts)
  {
    if acts == [] then None
    else if acts[|acts| - 1].DoWrite? && Writes(acts) == n then Some(acts[|acts| - 1])
    else NthWrite(acts[..|acts| - 1], n)
  }

  /** Under number `n` this data and this type were written. */
  ghost predicate WasWritten(acts: seq<Action>, n: nat, data: seq<byte>, dataType: DataType) {
    var w := NthWrite(acts, n);
    w.Some? && w.value.data == data && w.value.dataType == dataType
  }

  lemma WrittenBefore(before: seq<Action>, a: Action, n: nat)
    requires NthWrite(before, n).Some?
    ensures NthWrite(before + [a], n) == NthWrite(before, n)
  {
    assert (before + [a])[..|before|] == before;
  }

  lemma WrittenNow(before: seq<Action>, a: Action)
    requires a.DoWrite?
    ensures NthWrite(before + [a], Writes(before) + 1) == Some(a)
  {
    var acts := before + [a];
    assert acts[..|acts| - 1] == before && acts[|acts| - 1] == a;
    assert Writes(acts) == Writes(before) + 1;
  }

  // ---- What is carried -----------------------------------------------------------------

  ghost predicate EntryCarries(acts: seq<Action>, e: Entry) {
    WasWritten(acts, e.seqNo, e.data, e.dataType)
  }

  /** A row stores the name of the type, and was stamped by the clock of its write. */
  ghost predicate RowCarries(acts: seq<Action>, r: Row) {
    var w := NthWrite(acts, r.seqNo);
    && w.Some? && r.data == w.value.data && r.typeName == w.value.dataType.Name()
    && r.createdAt == w.value.clock.spillWall
  }

  /** An entry in memory also bears the instant of its write. */
  ghost predicate Kept(acts: seq<Action>, e: Entry) {
    EntryCarries(acts, e) && e.createdAt == NthWrite(acts, e.seqNo).value.clock.created
  }

  /** Everything a buffer holds carries what was written. */
  ghost predicate AllCarry(acts: seq<Action>, b: Buffer) {
    (forall e :: e in b.mem ==> Kept(acts, e)) && (forall r :: r in b.rows ==> RowCarries(acts, r))
  }

  lemma CarriedOn(before: seq<Action>, a: Action, b: Buffer)
    requires AllCarry(before, b)
    ensures AllCarry(before + [a], b)
  {
    forall e | e in b.mem
      ensures Kept(before + [a], e)
    {
      WrittenBefore(before, a, e.seqNo);
    }
    forall r | r in b.rows
      ensures RowCarries(before + [a], r)
    {
      WrittenBefore(before, a, r.seqNo);
    }
  }

  /** Nothing is in the one buffer that was not in the other, but for the marks on the rows. */
  ghost predicate Within(b: Buffer, from: Buffer) {
    && (forall e :: e in b.mem ==> e in from.mem)
    && (forall r :: r in b.rows ==>
          exists q :: q in from.rows && r == q.(sent := r.sent, retryCount := r.retryCount))
  }

  lemma WithinCarries(acts: seq<Action>, b: Buffer, from: Buffer)
    requires AllCarry(acts, from) && Within(b, from)
    ensures AllCarry(acts, b)
  {
  }

  lemma ExpireWithin(b: Buffer, now: nat, wall: int)
    ensures Within(Expire(b, now, wall), b)
  {
    forall r | r in Expire(b, now, wall).rows
      ensures r in b.rows && r == r.(sent := r.sent, retryCount := r.retryCount)
    {
    }
  }

  lemma PlaceCarries(acts: seq<Action>, x: Buffer, e: Entry, wall: int, spillOk: bool)
    requires AllCarry(acts, x) && Kept(acts, e) && wall == NthWrite(acts, e.seqNo).value.clock.spillWall
    ensures AllCarry(acts, Place(x, e, wall, spillOk))
  {
  }

  lemma WriteCarries(before: seq<Action>, a: Action, b: Buffer)
    requires AllCarry(before, b) && a.DoWrite? && b.nextSeq == 1 + Writes(before)
    ensures AllCarry(before + [a], Write(b, a.data, a.dataType, a.clock, a.spillOk))
  {
    var c, acts := a.clock, before + [a];
    var x := Expire(b, c.now, c.wall).(nextSeq := b.nextSeq + 1);
    CarriedOn(before, a, b);
    ExpireWithin(b, c.now, c.wall);
    WithinCarries(acts, x, b);
    WrittenNow(before, a);
    PlaceCarries(acts, x, Entry(b.nextSeq, c.created, a.data, a.dataType, None), c.spillWall, a.spillOk);
  }

  lemma FlushWithin(b: Buffer, ok: nat -> bool)
    requires InOrder(b.rows, false)
    ensures Within(Flush(b, ok), b)
  {
    var after := Flush(b, ok).rows;
    AcknowledgeInOrder(b.rows, Batch(b.rows), |b.mem|, FlushCount(b, ok), false);
    forall r | r in after
      ensures exists q :: q in b.rows && r == q.(sent := r.sent, retryCount := r.retryCount)
    {
      var i :| 0 <= i < |after| && after[i] == r;
      assert b.rows[i] in b.rows;
    }
  }

  lemma ShrinkCarries(acts: seq<Action>, b: Buffer, mem: seq<Entry>)
    requires AllCarry(acts, b) && forall e :: e in mem ==> e in b.mem
    ensures AllCarry(acts, b.(mem := mem))
  {
  }

  lemma FlushCarries(acts: seq<Action>, b: Buffer, ok: nat -> bool)
    requires AllCarry(acts, b) && InOrder(b.rows, false)
    ensures AllCarry(acts, Flush(b, ok))
  {
    FlushWithin(b, ok);
    WithinCarries(acts, Flush(b, ok), b);
  }

  lemma StepCarries(before: seq<Action>, a: Action, s: System)
    requires AllCarry(before, s.buf) && InOrder(s.buf.rows, false) && s.buf.nextSeq == 1 + Writes(before)
    ensures AllCarry(before + [a], Step(s, a).buf)
  {
    var b, acts := s.buf, before + [a];
    CarriedOn(before, a, b);
    match a
    case DoWrite(_, _, _, _) => WriteCarries(before, a, b);
    case DoRead(count) => ShrinkCarries(acts, b, Read(b, count).mem);
    case DoDrainByType(t) =>
      OfTypeIs(b.mem, t, false);
      ShrinkCarries(acts, b, OfType(b.mem, t, false));
    case DoDeleteAll =>
    case DoFlush(ok) => FlushCarries(acts, b, ok);
  }

  ghost predicate RunCarries(cfg: Config, acts: seq<Action>) {
    AllCarry(acts, Run(cfg, acts).buf)
  }

  lemma OneMoreCarries(cfg: Config, before: seq<Action>, a: Action)
    requires RunCarries(cfg, before)
    ensures RunCarries(cfg, before + [a])
  {
    RunInv(cfg, before);
    EveryNumberInExactlyOnePlace(cfg, before, 0);
    StepCarries(before, a, Run(cfg, before));
    RunSnoc(cfg, before, a);
  }

  /** Over every run: what memory and table hold under a number is what was written under it. */
  lemma BufferCarriesWritten(cfg: Config, acts: seq<Action>)
    ensures AllCarry(acts, Run(cfg, acts).buf)
  {
    forall before: seq<Action>, a: Action | RunCarries(cfg, before)
      ensures RunCarries(cfg, before + [a])
    {
      OneMoreCarries(cfg, before, a);
    }
    HoldsOfAll(run => RunCarries(cfg, run), acts);
  }

  /** The name of a type reads as that type. */
  lemma NameReads(t: DataType)
    ensures DataType.FromName(t.Name()) == Some(t)
  {
    match t
    case Metrics =>
    case Traces =>
    case Events =>
    case NetworkEvents =>
  }

  /** The type read off a row is the one its name names, and Metrics if it names none. */
  lemma TypeOfIs(r: Row)
    ensures TypeOf(r).Name() == r.typeName || (TypeOf(r) == Metrics && forall t: DataType :: t.Name() != r.typeName)
  {
  }

  /** So does every entry a drain hands out, from memory or from the table. */
  lemma DrainCarriesWritten(cfg: Config, acts: seq<Action>, at: nat)
    ensures forall e :: e in Drained(Run(cfg, acts).buf, at) ==> EntryCarries(acts, e)
  {
    var b := Run(cfg, acts).buf;
    BufferCarriesWritten(cfg, acts);
    RunInv(cfg, acts);
    InOrderDistinct(b.rows, false);
    BatchTakesFirst(b.rows);
    forall e | e in ToEntries(Batch(b.rows), at)
      ensures EntryCarries(acts, e)
    {
      var i :| 0 <= i < |Batch(b.rows)| && e == ToEntry(Batch(b.rows)[i], at);
      assert Batch(b.rows)[i] in Batch(b.rows);
      NameReads(NthWrite(acts, e.seqNo).value.dataType);
    }
  }

  // ---- The object, run -------------------------------------------------------------------

  lemma RunTake(cfg: Config, acts: seq<Action>, i: nat)
    requires i < |acts|
    ensures Run(cfg, acts[..i + 1]) == Step(Run(cfg, acts[..i]), acts[i])
  {
    assert acts[..i + 1][..i] == acts[..i];
  }

  /** A log of entries that carry what was written goes on to when more of them come in. */
  lemma LogCarries(cfg: Config, acts: seq<Action>, i: nat, at: nat, log: seq<Entry>, out: seq<Entry>)
    requires i < |acts|
    requires forall e :: e in log ==> EntryCarries(acts[..i], e)
    requires forall e :: e in out ==> e in Drained(Run(cfg, acts[..i]).buf, at)
    ensures forall e :: e in log ==> EntryCarries(acts[..i + 1], e)
    ensures forall e :: e in log + out ==> EntryCarries(acts[..i + 1], e)
  {
    DrainCarriesWritten(cfg, acts[..i], at);
    assert acts[..i] + [acts[i]] == acts[..i + 1];
    forall e | e in log || e in out
      ensures EntryCarries(acts[..i + 1], e)
    {
      WrittenBefore(acts[..i], acts[i], e.seqNo);
    }
  }

  /** One action on the object, which stands where the run `s` does; `out` is what is sent or handed out. */
  method Perform(b: E.EdgeBuffer, a: Action, at: nat, ghost s: System) returns (out: seq<Entry>)
    requires b.Valid() && b.Model() == s.buf
    modifies b
    ensures b.Valid() && b.Model() == Step(s, a).buf
    ensures Step(s, a).delivered == s.delivered + (if a.DoFlush? then Nums(out) else [])
    ensures Step(s, a).taken == s.taken + (if a.DoFlush? then [] else Nums(out))
    ensures forall e :: e in out ==> e in Drained(s.buf, at)
  {
    out := [];
    match a
    case DoWrite(data, t, c, spillOk) =>
      var seqNo := b.Write(data, t, c, spillOk);
    case DoRead(count) => out := b.Read(count);
    case DoDrainByType(t) =>
      OfTypeIs(s.buf.mem, t, true);
      out := b.DrainByType(t);
    case DoDeleteAll => b.DeleteAllBacklog();
    case DoFlush(ok) => out := E.FlushBuffer(b, at, ok);
  }

  /**
   Any run, on the object: it stands where the run does, the flush loop got through and the readers took what the
   run says, and every entry so sent or taken carries the data and the type written under its number.
   */
  method Replay(config: Config, acts: seq<Action>, at: nat)
    returns (b: E.EdgeBuffer, sent: seq<Entry>, taken: seq<Entry>)
    ensures fresh(b) && b.Valid() && b.Model() == Run(config, acts).buf
    ensures Nums(sent) == Run(config, acts).delivered && Nums(taken) == Run(config, acts).taken
    ensures forall e :: e in sent + taken ==> EntryCarries(acts, e)
  {
    b := new E.EdgeBuffer(config);
    sent, taken := [], [];
    ghost var s := Run(config, []);
    assert acts[..0] == [];
    for i := 0 to |acts|
      invariant fresh(b) && b.Valid() && b.Model() == s.buf && s == Run(config, acts[..i])
      invariant Nums(sent) == s.delivered && Nums(taken) == s.taken
      invariant forall e :: e in sent ==> EntryCarries(acts[..i], e)
      invariant forall e :: e in taken ==> EntryCarries(acts[..i], e)
    {
      var out := Perform(b, acts[i], at, s);
      LogCarries(config, acts, i, at, sent, out);
      LogCarries(config, acts, i, at, taken, out);
      NumsConcat(sent, out);
      NumsConcat(taken, out);
      RunTake(config, acts, i);
      s := Step(s, acts[i]);
      if acts[i].DoFlush? {
        sent := sent + out;
      } else {
        taken := taken + out;
      }
    }
    assert acts[..|acts|] == acts;
  }

  // ---- Bytes and ages --------------------------------------------------------------------

  /** The entries no older than `ttl` nanoseconds, wherever they stand. */
  function Young(mem: seq<Entry>, now: nat, ttl: nat): seq<Entry> {
    if mem == [] then []
    else (if now - mem[0].createdAt <= ttl then [mem[0]] else []) + Young(mem[1..], now, ttl)
  }

  /** The rows stamped at `since` or later. */
  function StampedSince(rows: seq<Row>, since: int): seq<Row> {
    if rows == [] then []
    else (if rows[0].createdAt >= since then [rows[0]] else []) + StampedSince(rows[1..], since)
  }

  lemma {:induction false} UnexpiredIsYoung(mem: seq<Entry>, now: nat, ttl: nat)
    ensures Unexpired(mem, now, ttl) == Young(mem, now, ttl)
  {
    if mem != [] {
      UnexpiredIsYoung(mem[1..], now, ttl);
    }
  }

  lemma {:induction false} AgedIsStamped(rows: seq<Row>, since: int)
    ensures Aged(rows, since, false) == StampedSince(rows, since)
  {
    if rows != [] {
      AgedIsStamped(rows[1..], since);
    }
  }

  /** Where an entry goes: as it says, in terms of the bytes held. */
  ghost predicate Placed(x: Buffer, e: Entry, stamp: int, spillOk: bool, after: Buffer) {
    var fits := |AllData(x.mem)| + |e.data| <= x.cfg.maxBytes;
    if fits then after == x.(mem := x.mem + [e])
    else if x.cfg.persistent && spillOk then
      after == x.(rows := x.rows + [Row(x.nextRowId, e.seqNo, e.data, e.dataType.Name(), 2, stamp, 0, false)],
                  nextRowId := x.nextRowId + 1)
    else
      exists k :: 0 <= k <= |x.mem|
        && after == x.(mem := x.mem[k..] + [e])
        && (k < |x.mem| ==> |AllData(x.mem[k..])| + |e.data| <= x.cfg.maxBytes)
        && forall i :: 0 <= i < k ==> |AllData(x.mem[i..])| + |e.data| > x.cfg.maxBytes
  }

  lemma PlaceIs(x: Buffer, e: Entry, stamp: int, spillOk: bool)
    ensures Placed(x, e, stamp, spillOk, Place(x, e, stamp, spillOk))
  {
    var k := EvictionCount(x.mem, |e.data|, x.cfg.maxBytes);
    forall i | 0 <= i <= |x.mem|
      ensures Bytes(x.mem[i..]) == |AllData(x.mem[i..])|
    {
      BytesAreData(x.mem[i..]);
    }
    assert x.mem[0..] == x.mem;
  }

  /** The buffer a write finds once expiry is done. */
  function Refreshed(b: Buffer, c: Clock): Buffer {
    var since := c.wall - b.cfg.ttlNanos / 1_000_000_000;
    b.(nextSeq := b.nextSeq + 1,
       mem := Young(b.mem, c.now, b.cfg.ttlNanos),
       rows := if b.cfg.persistent then StampedSince(b.rows, since) else b.rows)
  }

  lemma RefreshedIs(b: Buffer, c: Clock)
    requires Expire(b, c.now, c.wall).mem == Unexpired(b.mem, c.now, b.cfg.ttlNanos)
    ensures Expire(b, c.now, c.wall).(nextSeq := b.nextSeq + 1) == Refreshed(b, c)
  {
    UnexpiredIsYoung(b.mem, c.now, b.cfg.ttlNanos);
    AgedIsStamped(b.rows, c.wall - b.cfg.ttlNanos / 1_000_000_000);
  }

  /**
   What a write does in any reachable buffer: entries older than the TTL go, and rows stamped more than the TTL in
   whole seconds ago; the next number is given out; and the entry is kept in memory if it fits beside the bytes there,
   else goes to the table if that works, else takes the place of the fewest oldest entries that make room for it.
   */
  lemma WriteDoes(cfg: Config, acts: seq<Action>, data: seq<byte>, t: DataType, c: Clock, spillOk: bool)
    requires InstantsMonotone(acts)
    ensures var b := Run(cfg, acts).buf;
            && b.cfg == cfg && b.nextSeq == 1 + Writes(acts)
            && Placed(Refreshed(b, c), Entry(b.nextSeq, c.created, data, t, None), c.spillWall, spillOk,
                      Run(cfg, acts + [DoWrite(data, t, c, spillOk)]).buf)
  {
    var b := Run(cfg, acts).buf;
    RunConfig(cfg, acts);
    RunSnoc(cfg, acts, DoWrite(data, t, c, spillOk));
    EveryNumberInExactlyOnePlace(cfg, acts, 0);
    ExpiryLeavesNoneExpired(cfg, acts, c.now, c.wall);
    RefreshedIs(b, c);
    PlaceIs(Refreshed(b, c), Entry(b.nextSeq, c.created, data, t, None), c.spillWall, spillOk);
  }
}
