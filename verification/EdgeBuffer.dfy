/**
 The edge buffer as an object whose deque, counters and table rows are updated in place,
 and the flush loop that drains it. Each method is proved against EdgeBufferModel.
 */
module EdgeBuffer {
  import opened Basics
  import M = EdgeBufferModel
  import L = EdgeBufferLemmas

  lemma OfTypeStep(kept: seq<M.Entry>, mem: seq<M.Entry>, t: M.DataType, m: bool)
    requires mem != []
    ensures kept + M.OfType(mem, t, m)
         == (if (mem[0].dataType == t) == m then kept + [mem[0]] else kept) + M.OfType(mem[1..], t, m)
  {
    SnocThen(kept, mem[0], M.OfType(mem[1..], t, m));
  }

  lemma SnocThen(kept: seq<M.Entry>, e: M.Entry, rest: seq<M.Entry>)
    ensures kept + ([e] + rest) == (kept + [e]) + rest
  {
  }

  lemma {:induction false} OfTypeNoRowIds(mem: seq<M.Entry>, t: M.DataType, m: bool)
    requires L.NoRowIds(mem)
    ensures L.NoRowIds(M.OfType(mem, t, m))
  {
    if mem != [] {
      OfTypeNoRowIds(mem[1..], t, m);
    }
  }

  /** What the two halves of a typed drain add up to. */
  lemma OfTypeEnds(entries: seq<M.Entry>, retained: seq<M.Entry>, all: seq<M.Entry>, t: M.DataType)
    requires L.NoRowIds(all) && entries == M.OfType(all, t, true) && retained == M.OfType(all, t, false)
    ensures L.NoRowIds(retained)
    ensures M.Bytes(entries) + M.Bytes(retained) == M.Bytes(all) && |entries| + |retained| == |all|
  {
    OfTypeNoRowIds(all, t, false);
    L.BytesOfType(all, t);
  }

  lemma FitsKeepsAll(mem: seq<M.Entry>, size: nat, max: nat)
    requires M.Fits(mem, size, max)
    ensures mem[M.EvictionCount(mem, size, max)..] == mem
  {
    assert mem[0..] == mem;
  }

  class EdgeBuffer {
    const config: M.Config
    /** In-memory ring buffer, oldest entry first. */
    var buffer: seq<M.Entry>
    var memoryUsage: nat
    var entryCount: nat
    var sequenceCounter: nat
    /** The SQLite table in row-id order, and the next AUTOINCREMENT id. */
    var rows: seq<M.Row>
    var nextRowId: nat

    ghost predicate Valid()
      reads this
    {
      && memoryUsage == M.Bytes(buffer)
      && entryCount == |buffer|
      && (rows != [] ==> config.persistent)
      && L.NoRowIds(buffer)
      && L.IdsAscend(rows) && (forall r :: r in rows ==> r.id < nextRowId)
    }

    ghost function Model(): M.Buffer
      reads this
    {
      M.Buffer(config, sequenceCounter, buffer, rows, nextRowId)
    }

    constructor (config: M.Config)
      ensures Valid() && Model() == M.Empty(config)
    {
      this.config := config;
      buffer, memoryUsage, entryCount, sequenceCounter := [], 0, 0, 1;
      rows, nextRowId := [], 1;
    }

    /** Pop the oldest entry; false when there is none. */
    method EvictOldest() returns (evicted: bool)
      requires Valid()
      modifies this`buffer, this`memoryUsage, this`entryCount
      ensures Valid()
      ensures evicted == (old(buffer) != [])
      ensures buffer == if evicted then old(buffer)[1..] else old(buffer)
    {
      if buffer == [] {
        return false;
      }
      var size := |buffer[0].data|;
      buffer := buffer[1..];
      memoryUsage := memoryUsage - size;
      entryCount := entryCount - 1;
      return true;
    }

    /** Pop expired entries from the front, stopping at the first live one. */
    method EvictExpiredMemory(now: nat)
      requires Valid()
      modifies this`buffer, this`memoryUsage, this`entryCount
      ensures Valid()
      ensures buffer == old(buffer)[M.ExpiredFront(old(buffer), now, config.ttlNanos)..]
    {
      ghost var popped := 0;
      while buffer != [] && M.Expired(buffer[0], now, config.ttlNanos)
        invariant popped <= |old(buffer)| && buffer == old(buffer)[popped..]
        invariant popped + M.ExpiredFront(buffer, now, config.ttlNanos)
               == M.ExpiredFront(old(buffer), now, config.ttlNanos)
        invariant Valid()
        decreases |buffer|
      {
        var size := |buffer[0].data|;
        buffer := buffer[1..];
        memoryUsage := memoryUsage - size;
        entryCount := entryCount - 1;
        popped := popped + 1;
      }
    }

    /** DELETE rows stamped before the cutoff, sent or not. */
    method EvictExpiredSqlite(wall: int)
      requires Valid()
      modifies this`rows
      ensures Valid()
      ensures Model() == M.ExpireRows(old(Model()), wall)
      ensures forall r :: r in rows <==>
                r in old(rows) && !(config.persistent && r.createdAt < wall - config.ttlNanos / 1_000_000_000)
    {
      if config.persistent {
        L.AgedAscend(rows, M.Cutoff(config, wall), false);
        rows := M.Aged(rows, M.Cutoff(config, wall), false);
      }
    }

    method EvictExpired(now: nat, wall: int)
      requires Valid()
      modifies this`buffer, this`memoryUsage, this`entryCount, this`rows
      ensures Valid()
      ensures Model() == M.Expire(old(Model()), now, wall)
    {
      EvictExpiredMemory(now);
      EvictExpiredSqlite(wall);
    }

    /** INSERT of one entry. */
    method SpillToSqlite(entry: M.Entry, wall: int)
      requires Valid() && config.persistent
      modifies this`rows, this`nextRowId
      ensures Valid()
      ensures rows == old(rows)
                      + [M.Row(old(nextRowId), entry.seqNo, entry.data, entry.dataType.Name(), 2, wall, 0, false)]
      ensures nextRowId == old(nextRowId) + 1
    {
      rows := rows + [M.Row(nextRowId, entry.seqNo, entry.data, entry.dataType.Name(), 2, wall, 0, false)];
      nextRowId := nextRowId + 1;
    }

    /** Evict from the front until `size` more bytes fit or nothing is left. */
    method MakeRoom(size: nat)
      requires Valid()
      modifies this`buffer, this`memoryUsage, this`entryCount
      ensures Valid()
      ensures buffer == old(buffer)[M.EvictionCount(old(buffer), size, config.maxBytes)..]
    {
      ghost var all := buffer;
      ghost var popped := 0;
      while memoryUsage + size > config.maxBytes
        invariant popped <= |all| && buffer == all[popped..]
        invariant popped + M.EvictionCount(buffer, size, config.maxBytes) == M.EvictionCount(all, size, config.maxBytes)
        invariant Valid()
        decreases |buffer|
      {
        var evicted := EvictOldest();
        if !evicted {
          break;
        }
        popped := popped + 1;
      }
    }

    method Push(entry: M.Entry)
      requires Valid() && entry.rowId == None
      modifies this`buffer, this`memoryUsage, this`entryCount
      ensures Valid()
      ensures buffer == old(buffer) + [entry]
    {
      L.BytesConcat(buffer, [entry]);
      buffer := buffer + [entry];
      memoryUsage := memoryUsage + |entry.data|;
      entryCount := entryCount + 1;
    }

    /** Spill the entry when memory is full and the insert works; else make room for it in memory. */
    method Place(entry: M.Entry, wall: int, spillOk: bool)
      requires Valid() && entry.rowId == None
      modifies this`buffer, this`memoryUsage, this`entryCount, this`rows, this`nextRowId
      ensures Valid()
      ensures Model() == M.Place(old(Model()), entry, wall, spillOk)
    {
      var size := |entry.data|;
      if memoryUsage + size > config.maxBytes {
        if config.persistent && spillOk {
          SpillToSqlite(entry, wall);
          return;
        }
        MakeRoom(size);
      } else {
        FitsKeepsAll(buffer, size, config.maxBytes);
      }
      Push(entry);
    }

    /** `spillOk` says whether an insert into the table would work now. */
    method Write(data: seq<byte>, dataType: M.DataType, c: M.Clock, spillOk: bool) returns (seqNo: nat)
      requires Valid()
      modifies this
      ensures Valid()
      ensures seqNo == old(sequenceCounter)
      ensures Model() == M.Write(old(Model()), data, dataType, c, spillOk)
    {
      seqNo := sequenceCounter;
      var entry := M.Entry(seqNo, c.created, data, dataType, None);
      sequenceCounter := sequenceCounter + 1;
      EvictExpired(c.now, c.wall);
      Place(entry, c.spillWall, spillOk);
    }

    /** Hand out and forget up to `count` of the oldest memory entries. */
    method Read(count: nat) returns (entries: seq<M.Entry>)
      requires Valid()
      modifies this`buffer, this`memoryUsage, this`entryCount
      ensures Valid()
      ensures entries == Take(old(buffer), count)
      ensures Model() == M.Read(old(Model()), count)
    {
      var n := Min(count, |buffer|);
      entries := buffer[..n];
      assert buffer == entries + buffer[n..];
      L.BytesConcat(entries, buffer[n..]);
      buffer := buffer[n..];
      memoryUsage := memoryUsage - M.Bytes(entries);
      entryCount := entryCount - |entries|;
    }

    /**
     The first thousand unsent rows by priority and age, in that order, or all there are; they stay in the table.
     Each entry carries the number, the data and the id of its row.
     */
    method DrainSqlitePending(at: nat) returns (entries: seq<M.Entry>)
      requires Valid()
      ensures M.TakesFirst(rows, M.Batch(rows)) && |entries| == |M.Batch(rows)|
      ensures forall i :: 0 <= i < |entries| ==>
                var e, r := entries[i], M.Batch(rows)[i];
                e.seqNo == r.seqNo && e.data == r.data && e.rowId == Some(r.id)
      ensures entries == M.ToEntries(M.Batch(rows), at)
    {
      L.BatchTakesFirst(rows);
      entries := M.ToEntries(M.Batch(rows), at);
    }

    method Drain(at: nat) returns (entries: seq<M.Entry>)
      requires Valid()
      modifies this`buffer, this`memoryUsage, this`entryCount
      ensures Valid() && buffer == []
      ensures entries == M.Drained(old(Model()), at)
    {
      entries := buffer;
      buffer := [];
      memoryUsage := memoryUsage - M.Bytes(entries);
      entryCount := 0;
      if config.persistent {
        var pending := DrainSqlitePending(at);
        entries := entries + pending;
      } else {
        assert M.Batch(rows) == [] && M.ToEntries(M.Batch(rows), at) == [];
        assert entries == entries + [];
      }
    }

    method DrainByType(dataType: M.DataType) returns (entries: seq<M.Entry>)
      requires Valid()
      modifies this`buffer, this`memoryUsage, this`entryCount
      ensures Valid()
      ensures entries == M.OfType(old(buffer), dataType, true)
      ensures Model() == M.DrainByType(old(Model()), dataType)
    {
      ghost var all := buffer;
      var retained;
      entries, retained := Partition(buffer, dataType);
      OfTypeEnds(entries, retained, all, dataType);
      buffer := retained;
      memoryUsage := memoryUsage - M.Bytes(entries);
      entryCount := entryCount - |entries|;
    }

    /** The pass over the deque that sorts its entries into those asked for and those that go back. */
    static method Partition(all: seq<M.Entry>, dataType: M.DataType)
      returns (entries: seq<M.Entry>, retained: seq<M.Entry>)
      ensures entries == M.OfType(all, dataType, true) && retained == M.OfType(all, dataType, false)
    {
      entries, retained := [], [];
      var rest := all;
      while rest != []
        invariant entries + M.OfType(rest, dataType, true) == M.OfType(all, dataType, true)
        invariant retained + M.OfType(rest, dataType, false) == M.OfType(all, dataType, false)
        decreases |rest|
      {
        var entry := rest[0];
        OfTypeStep(entries, rest, dataType, true);
        OfTypeStep(retained, rest, dataType, false);
        rest := rest[1..];
        if entry.dataType == dataType {
          entries := entries + [entry];
        } else {
          retained := retained + [entry];
        }
      }
      assert entries + [] == entries && retained + [] == retained;
    }

    /** What the flush loop does with the row behind an entry, if it has one, once the send is answered. */
    method Settle(rowId: Option<nat>, accepted: bool)
      requires Valid()
      modifies this`rows
      ensures Valid()
      ensures rows == M.Settled(old(rows), rowId, accepted)
    {
      if rowId.Some? {
        if accepted {
          MarkSent(rowId.value);
        } else {
          MarkRetry(rowId.value);
        }
      }
    }

    method MarkSent(rowId: nat)
      requires Valid()
      modifies this`rows
      ensures Valid()
      ensures rows == M.Sent(old(rows), {rowId})
    {
      rows := M.Sent(rows, {rowId});
    }

    method MarkRetry(rowId: nat)
      requires Valid()
      modifies this`rows
      ensures Valid()
      ensures rows == M.Retried(old(rows), rowId)
    {
      rows := M.Retried(rows, rowId);
    }

    method DeleteAllBacklog()
      requires Valid()
      modifies this
      ensures Valid()
      ensures Model() == M.DeleteAll(old(Model()))
    {
      var drained := |buffer|;
      buffer := [];
      if drained > 0 {
        memoryUsage := 0;
        entryCount := 0;
      }
      if config.persistent {
        rows := [];
      }
    }
  }

  /** The rows when the flush loop ends at its `k`-th send, which was refused, or with everything sent. */
  ghost function RowsAtEnd(rows: seq<M.Row>, entries: seq<M.Entry>, k: nat): seq<M.Row>
    requires k <= |entries|
  {
    var sent := M.AllSettled(rows, entries[..k]);
    if k < |entries| then M.Settled(sent, entries[k].rowId, false) else sent
  }

  lemma SettleNext(rows: seq<M.Row>, entries: seq<M.Entry>, k: nat)
    requires k < |entries|
    ensures M.AllSettled(rows, entries[..k + 1]) == M.Settled(M.AllSettled(rows, entries[..k]), entries[k].rowId, true)
  {
    assert entries[..k + 1][..k] == entries[..k];
  }

  /** The flush loop over what was drained. */
  method SendDrained(b: EdgeBuffer, entries: seq<M.Entry>, ok: nat -> bool) returns (sent: seq<M.Entry>, k: nat)
    requires b.Valid()
    modifies b`rows
    ensures b.Valid()
    ensures k <= |entries| && sent == entries[..k]
    ensures (forall j :: 0 <= j < k ==> ok(j)) && (k < |entries| ==> !ok(k))
    ensures b.rows == RowsAtEnd(old(b.rows), entries, k)
  {
    sent, k := [], 0;
    while k < |entries|
      invariant k <= |entries| && sent == entries[..k]
      invariant forall j :: 0 <= j < k ==> ok(j)
      invariant b.Valid() && b.rows == M.AllSettled(old(b.rows), entries[..k])
    {
      var entry := entries[k];
      b.Settle(entry.rowId, ok(k));
      if !ok(k) {
        return;
      }
      TakeSnoc(entries, k);
      SettleNext(old(b.rows), entries, k);
      sent := sent + [entry];
      k := k + 1;
    }
  }

  /** What the loop leaves is what the flush leaves. */
  lemma EndRowsAgree(b: M.Buffer, at: nat, k: nat)
    requires L.NoRowIds(b.mem) && k <= |M.Drained(b, at)|
    ensures RowsAtEnd(b.rows, M.Drained(b, at), k) == L.EndRows(b, k)
  {
    L.SettledSoFar(b, at, k);
    if k < |M.Drained(b, at)| {
      L.RefusedRows(b, at, k);
    }
  }

  /**
   A flush: send in drain order, acknowledge each row, stop at the first refusal.
   `ok(i)` is the answer of the i-th send; `sent` are the entries that got through.
   */
  method FlushBuffer(b: EdgeBuffer, at: nat, ok: nat -> bool) returns (sent: seq<M.Entry>)
    requires b.Valid()
    modifies b
    ensures b.Valid()
    ensures b.Model() == M.Flush(old(b.Model()), ok)
    ensures M.Nums(sent) == M.FlushDelivered(old(b.Model()), ok)
    ensures sent <= M.Drained(old(b.Model()), at)
  {
    ghost var before := b.Model();
    var entries := b.Drain(at);
    var k;
    sent, k := SendDrained(b, entries, ok);
    EndRowsAgree(before, at, k);
    L.FlushEnds(before, at, ok, k);
  }
}
