/** Facts about the deque and the table that the run theorems rest on. */
module EdgeBufferLemmas {
  import opened Basics
  import opened EdgeBufferModel

  // ---- Counting sequence numbers --------------------------------------------

  lemma NumsConcat(a: seq<Entry>, b: seq<Entry>)
    ensures Nums(a + b) == Nums(a) + Nums(b)
  {
  }

  lemma NumsSplit(a: seq<Entry>, n: nat)
    requires n <= |a|
    ensures Nums(a[..n]) == Nums(a)[..n]
    ensures Nums(a[n..]) == Nums(a)[n..]
  {
    assert a == a[..n] + a[n..];
    NumsConcat(a[..n], a[n..]);
  }

  function Count(xs: seq<nat>, n: nat): nat {
    if xs == [] then 0 else Count(xs[1..], n) + if xs[0] == n then 1 else 0
  }

  lemma CountCons(x: nat, xs: seq<nat>, n: nat)
    ensures Count([x] + xs, n) == Count(xs, n) + if x == n then 1 else 0
  {
    assert ([x] + xs)[1..] == xs;
  }

  lemma {:induction false} CountConcat(a: seq<nat>, b: seq<nat>, n: nat)
    ensures Count(a + b, n) == Count(a, n) + Count(b, n)
  {
    if a == [] {
      assert a + b == b;
    } else {
      assert (a + b)[1..] == a[1..] + b;
      CountConcat(a[1..], b, n);
    }
  }

  lemma CountSnoc(xs: seq<nat>, x: nat, n: nat)
    ensures Count(xs + [x], n) == Count(xs, n) + if x == n then 1 else 0
  {
    CountConcat(xs, [x], n);
    CountCons(x, [], n);
    assert [x] + [] == [x];
  }

  lemma {:induction false} CountedIff(xs: seq<nat>, n: nat)
    ensures Count(xs, n) > 0 <==> n in xs
  {
    if xs != [] {
      assert xs == [xs[0]] + xs[1..];
      CountedIff(xs[1..], n);
    }
  }

  lemma NumsCons(e: Entry, es: seq<Entry>, n: nat)
    ensures Count(Nums([e] + es), n) == Count(Nums(es), n) + if e.seqNo == n then 1 else 0
  {
    assert Nums([e] + es) == [e.seqNo] + Nums(es);
    CountCons(e.seqNo, Nums(es), n);
  }

  lemma RowNumsCons(r: Row, rows: seq<Row>)
    ensures RowNums([r] + rows) == [r.seqNo] + RowNums(rows)
  {
  }

  lemma PendingCons(r: Row, rows: seq<Row>)
    ensures Pending([r] + rows) == if r.sent then Pending(rows) else [r] + Pending(rows)
  {
    assert ([r] + rows)[1..] == rows;
  }

  lemma {:induction false} PendingSnoc(rows: seq<Row>, r: Row)
    requires !r.sent
    ensures Pending(rows + [r]) == Pending(rows) + [r]
  {
    if rows == [] {
      assert rows + [r] == [r] + [] && Pending([r][1..]) == [];
    } else {
      var head, tail := rows[0], rows[1..];
      PendingSnoc(tail, r);
      assert rows == [head] + tail && rows + [r] == [head] + (tail + [r]);
      PendingCons(head, tail);
      PendingCons(head, tail + [r]);
      assert [head] + (Pending(tail) + [r]) == ([head] + Pending(tail)) + [r];
    }
  }

  /** What is of the type, or is not. */
  lemma {:induction false} OfTypeIs(mem: seq<Entry>, t: DataType, matching: bool)
    ensures forall e :: e in OfType(mem, t, matching) <==> e in mem && (e.dataType == t) == matching
  {
    if mem != [] {
      OfTypeIs(mem[1..], t, matching);
      assert mem == [mem[0]] + mem[1..];
    }
  }

  lemma {:induction false} OfTypePartitions(mem: seq<Entry>, t: DataType, n: nat)
    ensures Count(Nums(OfType(mem, t, true)), n) + Count(Nums(OfType(mem, t, false)), n) == Count(Nums(mem), n)
  {
    if mem != [] {
      var head, tail := mem[0], mem[1..];
      OfTypePartitions(tail, t, n);
      assert mem == [head] + tail;
      NumsCons(head, tail, n);
      NumsCons(head, OfType(tail, t, head.dataType == t), n);
    }
  }

  lemma RowCons(r: Row, rows: seq<Row>, n: nat)
    ensures Count(RowNums([r] + rows), n) == Count(RowNums(rows), n) + if r.seqNo == n then 1 else 0
  {
    RowNumsCons(r, rows);
    CountCons(r.seqNo, RowNums(rows), n);
  }

  /** How often `n` is still to be sent. */
  function PendingCount(rows: seq<Row>, n: nat): nat {
    Count(RowNums(Pending(rows)), n)
  }

  lemma PendingCountCons(r: Row, rows: seq<Row>, n: nat)
    ensures PendingCount([r] + rows, n) == PendingCount(rows, n) + if !r.sent && r.seqNo == n then 1 else 0
  {
    PendingCons(r, rows);
    RowCons(r, Pending(rows), n);
  }

  /** Deleting the aged rows splits the pending numbers in two. */
  lemma {:induction false} AgedPartitions(rows: seq<Row>, cutoff: int, n: nat)
    ensures PendingCount(rows, n)
         == PendingCount(Aged(rows, cutoff, true), n) + PendingCount(Aged(rows, cutoff, false), n)
  {
    if rows != [] {
      var r, tail := rows[0], rows[1..];
      assert rows == [r] + tail;
      AgedPartitions(tail, cutoff, n);
      PendingCountCons(r, tail, n);
      PendingCountCons(r, Aged(tail, cutoff, r.createdAt < cutoff), n);
    }
  }

  // ---- Bytes ------------------------------------------------------------------

  lemma {:induction false} BytesConcat(a: seq<Entry>, b: seq<Entry>)
    ensures Bytes(a + b) == Bytes(a) + Bytes(b)
  {
    if a == [] {
      assert a + b == b;
    } else {
      BytesConcat(a[1..], b);
      assert (a + b)[1..] == a[1..] + b;
    }
  }

  lemma {:induction false} BytesAreData(mem: seq<Entry>)
    ensures Bytes(mem) == |AllData(mem)|
  {
    if mem != [] {
      BytesAreData(mem[1..]);
    }
  }

  lemma BytesSuffix(mem: seq<Entry>, n: nat)
    requires n <= |mem|
    ensures Bytes(mem[n..]) <= Bytes(mem)
  {
    assert mem == mem[..n] + mem[n..];
    BytesConcat(mem[..n], mem[n..]);
  }

  lemma {:induction false} BytesOfType(mem: seq<Entry>, t: DataType)
    ensures Bytes(OfType(mem, t, true)) + Bytes(OfType(mem, t, false)) == Bytes(mem)
    ensures |OfType(mem, t, true)| + |OfType(mem, t, false)| == |mem|
  {
    if mem != [] {
      BytesOfType(mem[1..], t);
      var m := mem[0].dataType == t;
      assert ([mem[0]] + OfType(mem[1..], t, m))[1..] == OfType(mem[1..], t, m);
    }
  }

  // ---- Row ids --------------------------------------------------------------

  ghost predicate DistinctIds(rows: seq<Row>) {
    rows != [] ==> rows[0].id !in Ids(rows[1..]) && DistinctIds(rows[1..])
  }

  lemma {:induction false} PrefixDistinct(rows: seq<Row>, n: nat)
    requires n <= |rows| && DistinctIds(rows)
    ensures DistinctIds(rows[..n])
  {
    if n > 0 {
      PrefixDistinct(rows[1..], n - 1);
      assert rows[..n][1..] == rows[1..][..n - 1];
    }
  }

  /** The table in the order its rows were inserted. */
  ghost predicate IdsAscend(rows: seq<Row>) {
    forall i, j :: 0 <= i < j < |rows| ==> rows[i].id < rows[j].id
  }

  lemma IdsAscendCons(r: Row, rows: seq<Row>)
    ensures IdsAscend([r] + rows) <==> IdsAscend(rows) && forall x :: x in rows ==> r.id < x.id
  {
    var all := [r] + rows;
    if IdsAscend(all) {
      forall x | x in rows ensures r.id < x.id {
        var i :| 0 <= i < |rows| && rows[i] == x;
        assert all[0] == r && all[i + 1] == x;
      }
      forall i, j | 0 <= i < j < |rows| ensures rows[i].id < rows[j].id {
        assert all[i + 1] == rows[i] && all[j + 1] == rows[j];
      }
    }
  }

  lemma {:induction false} IncreasingIdsDistinct(rows: seq<Row>)
    requires IdsAscend(rows)
    ensures DistinctIds(rows)
  {
    if rows != [] {
      assert rows == [rows[0]] + rows[1..];
      IdsAscendCons(rows[0], rows[1..]);
      IncreasingIdsDistinct(rows[1..]);
    }
  }

  lemma {:induction false} PendingAscend(rows: seq<Row>)
    requires IdsAscend(rows)
    ensures IdsAscend(Pending(rows))
    ensures forall r :: r in Pending(rows) <==> r in rows && !r.sent
  {
    if rows != [] {
      assert rows == [rows[0]] + rows[1..];
      IdsAscendCons(rows[0], rows[1..]);
      PendingAscend(rows[1..]);
      IdsAscendCons(rows[0], Pending(rows[1..]));
    }
  }

  lemma {:induction false} AgedAscend(rows: seq<Row>, cutoff: int, aged: bool)
    requires IdsAscend(rows)
    ensures IdsAscend(Aged(rows, cutoff, aged))
  {
    if rows != [] {
      assert rows == [rows[0]] + rows[1..];
      IdsAscendCons(rows[0], rows[1..]);
      AgedAscend(rows[1..], cutoff, aged);
      IdsAscendCons(rows[0], Aged(rows[1..], cutoff, aged));
    }
  }

  lemma {:induction false} PendingDistinct(rows: seq<Row>)
    requires DistinctIds(rows)
    ensures DistinctIds(Pending(rows))
    ensures forall r :: r in Pending(rows) <==> r in rows && !r.sent
  {
    if rows != [] {
      PendingDistinct(rows[1..]);
      assert rows == [rows[0]] + rows[1..];
      if !rows[0].sent {
        assert Pending(rows)[1..] == Pending(rows[1..]);
      }
    }
  }

  lemma {:induction false} InsertKeeps(r: Row, rows: seq<Row>)
    requires DistinctIds(rows) && r.id !in Ids(rows)
    ensures DistinctIds(Insert(r, rows))
    ensures |Insert(r, rows)| == |rows| + 1
    ensures forall x :: x in Insert(r, rows) <==> x == r || x in rows
  {
    if rows == [] || Precedes(r, rows[0]) {
      assert ([r] + rows)[1..] == rows;
    } else {
      InsertKeeps(r, rows[1..]);
      assert Insert(r, rows)[1..] == Insert(r, rows[1..]);
      assert rows == [rows[0]] + rows[1..];
    }
  }

  /** Sorting hands out the same rows. */
  lemma {:induction false} OrderByKeeps(rows: seq<Row>)
    requires DistinctIds(rows)
    ensures DistinctIds(OrderBy(rows))
    ensures |OrderBy(rows)| == |rows|
    ensures forall x :: x in OrderBy(rows) <==> x in rows
  {
    if rows != [] {
      OrderByKeeps(rows[1..]);
      InsertKeeps(rows[0], OrderBy(rows[1..]));
      assert rows == [rows[0]] + rows[1..];
    }
  }

  lemma BatchKeeps(rows: seq<Row>)
    requires DistinctIds(rows)
    ensures DistinctIds(Batch(rows))
    ensures |Batch(rows)| == Min(SQLITE_DRAIN_BATCH_SIZE, |Pending(rows)|)
    ensures forall x :: x in Batch(rows) ==> x in Pending(rows)
  {
    PendingDistinct(rows);
    OrderByKeeps(Pending(rows));
    PrefixDistinct(OrderBy(Pending(rows)), |Batch(rows)|);
  }

  // ---- Drain order ------------------------------------------------------------

  lemma DrainOrderTransitive(a: Row, b: Row, c: Row)
    requires DrainsBefore(a, b) && DrainsBefore(b, c)
    ensures DrainsBefore(a, c)
  {
  }

  lemma InDrainOrderCons(r: Row, rows: seq<Row>)
    ensures InDrainOrder([r] + rows) <==> InDrainOrder(rows) && forall x :: x in rows ==> DrainsBefore(r, x)
  {
    var all := [r] + rows;
    if InDrainOrder(all) {
      forall x | x in rows ensures DrainsBefore(r, x) {
        var i :| 0 <= i < |rows| && rows[i] == x;
        assert all[0] == r && all[i + 1] == x;
      }
      forall i, j | 0 <= i < j < |rows| ensures DrainsBefore(rows[i], rows[j]) {
        assert all[i + 1] == rows[i] && all[j + 1] == rows[j];
      }
    }
  }

  /** Inserting a row older than all the others, by id, keeps the drain order. */
  lemma {:induction false} InsertInOrder(r: Row, rows: seq<Row>)
    requires InDrainOrder(rows) && forall x :: x in rows ==> r.id < x.id
    ensures InDrainOrder(Insert(r, rows))
    ensures forall x :: x in Insert(r, rows) <==> x == r || x in rows
  {
    if rows == [] {
      assert Insert(r, rows) == [r];
    } else {
      var head, tail := rows[0], rows[1..];
      assert rows == [head] + tail;
      InDrainOrderCons(head, tail);
      if Precedes(r, head) {
        forall x | x in rows ensures DrainsBefore(r, x) {
          if x != head {
            DrainOrderTransitive(r, head, x);
          }
        }
        InDrainOrderCons(r, rows);
      } else {
        InsertInOrder(r, tail);
        InDrainOrderCons(head, Insert(r, tail));
      }
    }
  }

  /** Sorting puts the rows of a table into drain order. */
  lemma {:induction false} OrderBySorts(rows: seq<Row>)
    requires IdsAscend(rows)
    ensures InDrainOrder(OrderBy(rows))
    ensures forall x :: x in OrderBy(rows) <==> x in rows
  {
    if rows != [] {
      assert rows == [rows[0]] + rows[1..];
      IdsAscendCons(rows[0], rows[1..]);
      OrderBySorts(rows[1..]);
      InsertInOrder(rows[0], OrderBy(rows[1..]));
    }
  }

  lemma TakeInOrder(rows: seq<Row>, n: nat)
    requires InDrainOrder(rows)
    ensures InDrainOrder(Take(rows, n))
    ensures forall r, x :: r in Take(rows, n) && x in rows && x !in Take(rows, n) ==> DrainsBefore(r, x)
  {
    var taken := Take(rows, n);
    var rest := rows[|taken|..];
    assert rows == taken + rest;
    forall r, x | r in taken && x in rows && x !in taken
      ensures DrainsBefore(r, x)
    {
      var i :| 0 <= i < |taken| && taken[i] == r;
      assert x in rest;
      var j :| 0 <= j < |rest| && rest[j] == x;
      assert rows[i] == r && rows[|taken| + j] == x;
    }
  }

  /** The batch of a drain is what a drain promises, whatever the clocks did. */
  lemma BatchTakesFirst(rows: seq<Row>)
    requires IdsAscend(rows)
    ensures TakesFirst(rows, Batch(rows))
  {
    PendingAscend(rows);
    OrderBySorts(Pending(rows));
    TakeInOrder(OrderBy(Pending(rows)), SQLITE_DRAIN_BATCH_SIZE);
    IncreasingIdsDistinct(rows);
    BatchKeeps(rows);
  }

  /** A table whose wall-clock stamps never go back is already in drain order. */
  lemma {:induction false} OrderByIdentity(rows: seq<Row>)
    requires forall i, j :: 0 <= i < j < |rows| ==> Precedes(rows[i], rows[j])
    ensures OrderBy(rows) == rows
  {
    if rows != [] {
      OrderByIdentity(rows[1..]);
      assert rows[1..] != [] ==> Precedes(rows[0], rows[1]);
    }
  }

  // ---- Acknowledging rows -----------------------------------------------------

  lemma {:induction false} PendingSent(rows: seq<Row>, ids: set<nat>)
    ensures Pending(Sent(rows, ids)) == WithoutIds(Pending(rows), ids)
  {
    if rows != [] {
      PendingSent(rows[1..], ids);
      assert Sent(rows, ids)[1..] == Sent(rows[1..], ids);
      if !rows[0].sent {
        assert Pending(rows)[1..] == Pending(rows[1..]);
      }
    }
  }

  lemma {:induction false} PendingRetried(rows: seq<Row>, id: nat)
    ensures RowNums(Pending(Retried(rows, id))) == RowNums(Pending(rows))
  {
    if rows != [] {
      PendingRetried(rows[1..], id);
      assert Retried(rows, id)[1..] == Retried(rows[1..], id);
      if !rows[0].sent {
        RowNumsCons(rows[0], Pending(rows[1..]));
        RowNumsCons(Retried(rows, id)[0], Pending(Retried(rows[1..], id)));
      }
    }
  }

  lemma {:induction false} WithoutUnion(rows: seq<Row>, a: set<nat>, b: set<nat>)
    ensures WithoutIds(WithoutIds(rows, a), b) == WithoutIds(rows, a + b)
  {
    if rows != [] {
      WithoutUnion(rows[1..], a, b);
      if rows[0].id !in a {
        assert WithoutIds(rows, a)[1..] == WithoutIds(rows[1..], a);
      }
    }
  }

  lemma {:induction false} WithoutNothing(rows: seq<Row>, ids: set<nat>)
    requires ids !! Ids(rows)
    ensures WithoutIds(rows, ids) == rows
  {
    if rows != [] {
      WithoutNothing(rows[1..], ids);
    }
  }

  lemma {:induction false} WithoutKeeps(rows: seq<Row>, ids: set<nat>)
    ensures forall x :: x in WithoutIds(rows, ids) <==> x in rows && x.id !in ids
    ensures DistinctIds(rows) ==> DistinctIds(WithoutIds(rows, ids))
  {
    if rows != [] {
      var tail := rows[1..];
      assert rows == [rows[0]] + tail;
      WithoutKeeps(tail, ids);
      if rows[0].id !in ids {
        assert WithoutIds(rows, ids)[1..] == WithoutIds(tail, ids);
      }
    }
  }

  lemma {:induction false} WithoutOne(rows: seq<Row>, r: Row, n: nat)
    requires DistinctIds(rows) && r in rows
    ensures Count(RowNums(rows), n) == Count(RowNums(WithoutIds(rows, {r.id})), n) + if r.seqNo == n then 1 else 0
    ensures |WithoutIds(rows, {r.id})| == |rows| - 1
  {
    var tail := rows[1..];
    assert rows == [rows[0]] + tail;
    RowCons(rows[0], tail, n);
    if rows[0] == r {
      WithoutNothing(tail, {r.id});
    } else {
      assert r in tail && rows[0].id != r.id;
      WithoutOne(tail, r, n);
      RowCons(rows[0], WithoutIds(tail, {r.id}), n);
    }
  }

  /** Taking the rows of `q` out of `rows` removes exactly their numbers. */
  lemma {:induction false} WithoutBatch(rows: seq<Row>, q: seq<Row>, n: nat)
    requires DistinctIds(rows) && DistinctIds(q)
    requires forall x :: x in q ==> x in rows
    ensures Count(RowNums(WithoutIds(rows, Ids(q))), n) + Count(RowNums(q), n) == Count(RowNums(rows), n)
    ensures |WithoutIds(rows, Ids(q))| == |rows| - |q|
    decreases q
  {
    if q == [] {
      assert Ids(q) == {} && RowNums(q) == [];
      WithoutNothing(rows, {});
    } else {
      var r, tail := q[0], q[1..];
      var rest := WithoutIds(rows, {r.id});
      assert q == [r] + tail && Ids(q) == {r.id} + Ids(tail);
      WithoutOne(rows, r, n);
      WithoutKeeps(rows, {r.id});
      forall x | x in tail
        ensures x in rest
      {
        assert x in q && x.id in Ids(tail);
      }
      WithoutBatch(rest, tail, n);
      WithoutUnion(rows, {r.id}, Ids(tail));
      RowCons(r, tail, n);
    }
  }

  lemma CarriedIff(rows: seq<Row>, n: nat)
    ensures Count(RowNums(rows), n) >= 1 <==> exists r :: r in rows && r.seqNo == n
  {
    var nums := RowNums(rows);
    CountedIff(nums, n);
    if n in nums {
      var i :| 0 <= i < |nums| && nums[i] == n;
      assert rows[i] in rows;
    }
    if r :| r in rows && r.seqNo == n {
      var i :| 0 <= i < |rows| && rows[i] == r;
      assert nums[i] == n;
    }
  }

  // ---- The flush loop ---------------------------------------------------------

  ghost predicate NoRowIds(es: seq<Entry>) {
    forall i :: 0 <= i < |es| ==> es[i].rowId == None
  }

  lemma SentTwice(rows: seq<Row>, batch: seq<Row>, d: nat)
    requires d < |batch|
    ensures Sent(Sent(rows, Ids(batch[..d])), {batch[d].id}) == Sent(rows, Ids(batch[..d + 1]))
  {
    assert batch[..d + 1] == batch[..d] + [batch[d]];
    assert Ids(batch[..d + 1]) == Ids(batch[..d]) + {batch[d].id};
  }

  lemma DrainedEntry(b: Buffer, at: nat, i: nat)
    requires NoRowIds(b.mem)
    requires i < |Drained(b, at)|
    ensures Drained(b, at)[i].rowId
         == if i < |b.mem| then None else Some(Batch(b.rows)[i - |b.mem|].id)
  {
  }

  lemma DrainedPrefix(b: Buffer, at: nat, k: nat)
    requires k <= |Drained(b, at)|
    ensures Nums(Drained(b, at)[..k]) == (Nums(b.mem) + RowNums(Batch(b.rows)))[..k]
  {
    var batch := Batch(b.rows);
    NumsSplit(Drained(b, at), k);
    NumsConcat(b.mem, ToEntries(batch, at));
    assert Nums(ToEntries(batch, at)) == RowNums(batch);
  }

  /** The rows once the first `i` sends of a drain got through. */
  ghost function SentSoFar(b: Buffer, i: nat): seq<Row>
    requires i <= |b.mem| + |Batch(b.rows)|
  {
    if i <= |b.mem| then b.rows else Sent(b.rows, Ids(Batch(b.rows)[..i - |b.mem|]))
  }

  lemma SentNext(b: Buffer, i: nat)
    requires |b.mem| <= i < |b.mem| + |Batch(b.rows)|
    ensures Sent(SentSoFar(b, i), {Batch(b.rows)[i - |b.mem|].id}) == SentSoFar(b, i + 1)
  {
    var batch := Batch(b.rows);
    SentTwice(b.rows, batch, i - |b.mem|);
    if i == |b.mem| {
      assert Sent(b.rows, Ids(batch[..0])) == b.rows;
    }
  }

  /** The rows when the flush ends at its `k`-th send: a refused row, if it was one, is marked for retry. */
  ghost function EndRows(b: Buffer, k: nat): seq<Row>
    requires k <= |b.mem| + |Batch(b.rows)|
  {
    Acknowledge(b.rows, Batch(b.rows), |b.mem|, k)
  }

  lemma AcceptedRows(b: Buffer, at: nat, i: nat)
    requires NoRowIds(b.mem) && i < |Drained(b, at)|
    ensures Settled(SentSoFar(b, i), Drained(b, at)[i].rowId, true) == SentSoFar(b, i + 1)
  {
    DrainedEntry(b, at, i);
    if i >= |b.mem| {
      SentNext(b, i);
    }
  }

  lemma RefusedRows(b: Buffer, at: nat, i: nat)
    requires NoRowIds(b.mem) && i < |Drained(b, at)|
    ensures Settled(SentSoFar(b, i), Drained(b, at)[i].rowId, false) == EndRows(b, i)
  {
    DrainedEntry(b, at, i);
  }

  /** Sending the first `i` entries of a drain marks their rows. */
  lemma {:induction false} SettledSoFar(b: Buffer, at: nat, i: nat)
    requires NoRowIds(b.mem) && i <= |Drained(b, at)|
    ensures AllSettled(b.rows, Drained(b, at)[..i]) == SentSoFar(b, i)
  {
    if i > 0 {
      var all := Drained(b, at);
      SettledSoFar(b, at, i - 1);
      AcceptedRows(b, at, i - 1);
      assert all[..i][..i - 1] == all[..i - 1] && all[..i][i - 1] == all[i - 1];
    }
  }

  lemma FlushCountIs(b: Buffer, at: nat, ok: nat -> bool, k: nat)
    requires k <= |Drained(b, at)| && forall i :: 0 <= i < k ==> ok(i)
    requires k < |Drained(b, at)| ==> !ok(k)
    ensures k == FlushCount(b, ok)
  {
    FirstFailureIs(ok, |Drained(b, at)|, k);
  }

  lemma FirstFailureIs(ok: nat -> bool, n: nat, k: nat)
    requires k <= n && (forall i :: 0 <= i < k ==> ok(i)) && (k < n ==> !ok(k))
    ensures k == FirstFailure(ok, n)
  {
  }

  lemma FlushEnds(b: Buffer, at: nat, ok: nat -> bool, k: nat)
    requires k <= |Drained(b, at)| && forall i :: 0 <= i < k ==> ok(i)
    requires k < |Drained(b, at)| ==> !ok(k)
    ensures k == FlushCount(b, ok)
    ensures Flush(b, ok) == b.(mem := [], rows := EndRows(b, k))
    ensures Nums(Drained(b, at)[..k]) == FlushDelivered(b, ok)
  {
    FlushCountIs(b, at, ok, k);
    DrainedPrefix(b, at, k);
  }
}
