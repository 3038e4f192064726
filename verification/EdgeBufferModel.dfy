/**
 The edge buffer on values: what each operation does to the in-memory deque and to
 the rows of the SQLite table. The class in EdgeBuffer.dfy is proved against it.
 */
module EdgeBufferModel {
  import opened Basics

  const SQLITE_DRAIN_BATCH_SIZE: nat := 1000
  const NANOS_PER_SECOND: nat := 1_000_000_000

  /** In the table a type is stored by its name. */
  datatype DataType = Metrics | Traces | Events | NetworkEvents {
    function Name(): string {
      match this
      case Metrics => "metrics"
      case Traces => "traces"
      case Events => "events"
      case NetworkEvents => "network_events"
    }

    static function FromName(name: string): Option<DataType> {
      if name == "metrics" then Some(Metrics)
      else if name == "traces" then Some(Traces)
      else if name == "events" then Some(Events)
      else if name == "network_events" then Some(NetworkEvents)
      else None
    }
  }

  datatype Entry = Entry(
    seqNo: nat, createdAt: nat, data: seq<byte>, dataType: DataType, rowId: Option<nat>)

  /** `sent` stands for "sent_at IS NOT NULL", the only test made on that column. */
  datatype Row = Row(
    id: nat, seqNo: nat, data: seq<byte>, typeName: string,
    priority: int, createdAt: int, retryCount: nat, sent: bool)

  datatype Config = Config(maxBytes: nat, ttlNanos: nat, persistent: bool) {
    function TtlSeconds(): nat {
      ttlNanos / NANOS_PER_SECOND
    }
  }

  datatype Buffer = Buffer(cfg: Config, nextSeq: nat, mem: seq<Entry>, rows: seq<Row>, nextRowId: nat)

  /** The clock readings of one write: two monotonic instants and two wall-clock readings in seconds. */
  datatype Clock = Clock(created: nat, now: nat, wall: int, spillWall: int)

  function Empty(cfg: Config): Buffer {
    Buffer(cfg, 1, [], [], 1)
  }

  // ---- Memory --------------------------------------------------------------

  function Bytes(mem: seq<Entry>): nat {
    if mem == [] then 0 else |mem[0].data| + Bytes(mem[1..])
  }

  /** The data of all entries, one after the other. */
  function AllData(mem: seq<Entry>): seq<byte> {
    if mem == [] then [] else mem[0].data + AllData(mem[1..])
  }

  /** Instants subtract with saturation at zero. */
  predicate Expired(e: Entry, now: nat, ttl: nat) {
    now > e.createdAt && now - e.createdAt > ttl
  }

  /** How many entries at the front are expired, up to the first one that is not. */
  function ExpiredFront(mem: seq<Entry>, now: nat, ttl: nat): (n: nat)
    ensures n <= |mem|
    ensures forall i :: 0 <= i < n ==> Expired(mem[i], now, ttl)
    ensures n < |mem| ==> !Expired(mem[n], now, ttl)
  {
    if mem == [] || !Expired(mem[0], now, ttl) then 0 else 1 + ExpiredFront(mem[1..], now, ttl)
  }

  predicate Fits(mem: seq<Entry>, size: nat, max: nat) {
    Bytes(mem) + size <= max
  }

  /** The shortest prefix to evict so that `size` more bytes fit; everything when nothing helps. */
  function EvictionCount(mem: seq<Entry>, size: nat, max: nat): (n: nat)
    ensures n <= |mem|
    ensures n < |mem| ==> Fits(mem[n..], size, max)
    ensures forall i :: 0 <= i < n ==> !Fits(mem[i..], size, max)
  {
    if mem == [] || Fits(mem, size, max) then 0
    else
      var n := EvictionCount(mem[1..], size, max);
      assert forall i :: 0 < i <= |mem| ==> mem[i..] == mem[1..][i - 1..];
      1 + n
  }

  /** The entries of one type (`matching`), or the others. */
  function OfType(mem: seq<Entry>, t: DataType, matching: bool): (r: seq<Entry>) {
    if mem == [] then []
    else if (mem[0].dataType == t) == matching then [mem[0]] + OfType(mem[1..], t, matching)
    else OfType(mem[1..], t, matching)
  }

  function Nums(es: seq<Entry>): (r: seq<nat>)
    ensures |r| == |es|
    ensures forall i :: 0 <= i < |es| ==> r[i] == es[i].seqNo
  {
    Map((e: Entry) => e.seqNo, es)
  }

  // ---- Table ---------------------------------------------------------------

  function RowNums(rows: seq<Row>): (r: seq<nat>)
    ensures |r| == |rows|
    ensures forall i :: 0 <= i < |rows| ==> r[i] == rows[i].seqNo
  {
    Map((r: Row) => r.seqNo, rows)
  }

  function Ids(rows: seq<Row>): set<nat> {
    set r <- rows :: r.id
  }

  /** SELECT ... WHERE sent_at IS NULL, in row-id order. */
  function Pending(rows: seq<Row>): seq<Row> {
    if rows == [] then []
    else if rows[0].sent then Pending(rows[1..])
    else [rows[0]] + Pending(rows[1..])
  }

  /** Rows with created_at < cutoff (`aged`), or the others. */
  function Aged(rows: seq<Row>, cutoff: int, aged: bool): (kept: seq<Row>)
    ensures forall r :: r in kept <==> r in rows && (r.createdAt < cutoff) == aged
  {
    if rows == [] then []
    else if (rows[0].createdAt < cutoff) == aged then [rows[0]] + Aged(rows[1..], cutoff, aged)
    else Aged(rows[1..], cutoff, aged)
  }

  function WithoutIds(rows: seq<Row>, ids: set<nat>): seq<Row> {
    if rows == [] then []
    else if rows[0].id in ids then WithoutIds(rows[1..], ids)
    else [rows[0]] + WithoutIds(rows[1..], ids)
  }

  /** ORDER BY priority, created_at; equal keys keep row-id order. */
  predicate Precedes(a: Row, b: Row) {
    a.priority < b.priority || (a.priority == b.priority && a.createdAt <= b.createdAt)
  }

  /** The order of a drain, ties included: by priority, then creation time, then id. */
  predicate DrainsBefore(a: Row, b: Row) {
    || a.priority < b.priority
    || (a.priority == b.priority && a.createdAt < b.createdAt)
    || (a.priority == b.priority && a.createdAt == b.createdAt && a.id < b.id)
  }

  ghost predicate InDrainOrder(rows: seq<Row>) {
    forall i, j :: 0 <= i < j < |rows| ==> DrainsBefore(rows[i], rows[j])
  }

  /**
   What a drain promises: a thousand unsent rows or all there are, in drain order, and none left out that
   comes earlier.
   */
  ghost predicate TakesFirst(rows: seq<Row>, batch: seq<Row>) {
    && |batch| == Min(1000, |Pending(rows)|)
    && InDrainOrder(batch)
    && (forall r :: r in batch ==> r in rows && !r.sent)
    && (forall r, x :: r in batch && x in rows && !x.sent && x !in batch ==> DrainsBefore(r, x))
  }

  function Insert(r: Row, rows: seq<Row>): seq<Row> {
    if rows == [] || Precedes(r, rows[0]) then [r] + rows
    else [rows[0]] + Insert(r, rows[1..])
  }

  function OrderBy(rows: seq<Row>): seq<Row> {
    if rows == [] then [] else Insert(rows[0], OrderBy(rows[1..]))
  }

  /** The rows one drain hands out. */
  function Batch(rows: seq<Row>): seq<Row> {
    Take(OrderBy(Pending(rows)), SQLITE_DRAIN_BATCH_SIZE)
  }

  /** A type name that is none reads as Metrics. */
  function TypeOf(r: Row): DataType {
    match DataType.FromName(r.typeName)
    case Some(t) => t
    case None => Metrics
  }

  function ToEntry(r: Row, at: nat): Entry {
    Entry(r.seqNo, at, r.data, TypeOf(r), Some(r.id))
  }

  function ToEntries(rows: seq<Row>, at: nat): (es: seq<Entry>)
    ensures |es| == |rows|
    ensures forall i :: 0 <= i < |rows| ==> es[i] == ToEntry(rows[i], at)
  {
    seq(|rows|, i requires 0 <= i < |rows| => ToEntry(rows[i], at))
  }

  function Sent(rows: seq<Row>, ids: set<nat>): (r: seq<Row>)
    ensures |r| == |rows|
    ensures forall i :: 0 <= i < |rows| ==>
              r[i] == if rows[i].id in ids then rows[i].(sent := true) else rows[i]
  {
    seq(|rows|, i requires 0 <= i < |rows| =>
      if rows[i].id in ids then rows[i].(sent := true) else rows[i])
  }

  function Retried(rows: seq<Row>, id: nat): (r: seq<Row>)
    ensures |r| == |rows|
    ensures forall i :: 0 <= i < |rows| ==>
              r[i] == if rows[i].id == id then rows[i].(retryCount := rows[i].retryCount + 1) else rows[i]
  {
    seq(|rows|, i requires 0 <= i < |rows| =>
      if rows[i].id == id then rows[i].(retryCount := rows[i].retryCount + 1) else rows[i])
  }

  /** The rows once the send of an entry is answered: the row behind it, if any, is marked. */
  function Settled(rows: seq<Row>, rowId: Option<nat>, accepted: bool): seq<Row> {
    match rowId
    case None => rows
    case Some(id) => if accepted then Sent(rows, {id}) else Retried(rows, id)
  }

  /** The rows once all these entries were sent. */
  function AllSettled(rows: seq<Row>, entries: seq<Entry>): seq<Row> {
    if entries == [] then rows
    else
      var n := |entries| - 1;
      Settled(AllSettled(rows, entries[..n]), entries[n].rowId, true)
  }

  // ---- Operations ----------------------------------------------------------

  function Cutoff(cfg: Config, wall: int): int {
    wall - cfg.TtlSeconds()
  }

  function ExpireMemory(b: Buffer, now: nat): Buffer {
    b.(mem := b.mem[ExpiredFront(b.mem, now, b.cfg.ttlNanos)..])
  }

  function ExpireRows(b: Buffer, wall: int): Buffer {
    if b.cfg.persistent then b.(rows := Aged(b.rows, Cutoff(b.cfg, wall), false)) else b
  }

  function Expire(b: Buffer, now: nat, wall: int): Buffer {
    ExpireRows(ExpireMemory(b, now), wall)
  }

  /** Spill to the table if memory is full and the insert works, else make room and append. */
  function Place(x: Buffer, e: Entry, wall: int, spillOk: bool): Buffer {
    if !Fits(x.mem, |e.data|, x.cfg.maxBytes) && x.cfg.persistent && spillOk then
      x.(rows := x.rows + [Row(x.nextRowId, e.seqNo, e.data, e.dataType.Name(), 2, wall, 0, false)],
         nextRowId := x.nextRowId + 1)
    else
      x.(mem := x.mem[EvictionCount(x.mem, |e.data|, x.cfg.maxBytes)..] + [e])
  }

  /** A write: number the entry, expire, then place it. */
  function Write(b: Buffer, data: seq<byte>, t: DataType, c: Clock, spillOk: bool): Buffer {
    var x := Expire(b, c.now, c.wall).(nextSeq := b.nextSeq + 1);
    Place(x, Entry(b.nextSeq, c.created, data, t, None), c.spillWall, spillOk)
  }

  /** The numbers that expiry lets go of: memory entries, then rows that were still to be sent. */
  function ExpiredOut(b: Buffer, now: nat, wall: int): seq<nat> {
    Nums(b.mem[..ExpiredFront(b.mem, now, b.cfg.ttlNanos)])
    + if b.cfg.persistent then RowNums(Pending(Aged(b.rows, Cutoff(b.cfg, wall), true))) else []
  }

  /** The numbers a write evicts to make room. */
  function Displaced(b: Buffer, data: seq<byte>, c: Clock, spillOk: bool): seq<nat> {
    var x := Expire(b, c.now, c.wall);
    if !Fits(x.mem, |data|, x.cfg.maxBytes) && x.cfg.persistent && spillOk then []
    else Nums(x.mem[..EvictionCount(x.mem, |data|, x.cfg.maxBytes)])
  }

  function Read(b: Buffer, count: nat): Buffer {
    b.(mem := b.mem[Min(count, |b.mem|)..])
  }

  function DrainByType(b: Buffer, t: DataType): Buffer {
    b.(mem := OfType(b.mem, t, false))
  }

  function DeleteAll(b: Buffer): Buffer {
    b.(mem := [], rows := [])
  }

  function Drained(b: Buffer, at: nat): seq<Entry> {
    b.mem + ToEntries(Batch(b.rows), at)
  }

  /** Position of the first refused send among the first `n`, or `n`. */
  function FirstFailure(ok: nat -> bool, n: nat): (k: nat)
    ensures k <= n
    ensures forall i :: 0 <= i < k ==> ok(i)
    ensures k < n ==> !ok(k)
    decreases n
  {
    if n == 0 then 0
    else
      var k := FirstFailure(ok, n - 1);
      if k < n - 1 || !ok(n - 1) then k else n
  }

  /** The table after a flush that got `k` sends through, out of a drain of `m` entries and the rows `batch`. */
  function Acknowledge(rows: seq<Row>, batch: seq<Row>, m: nat, k: nat): seq<Row>
    requires k <= m + |batch|
  {
    var acked := if k <= m then rows else Sent(rows, Ids(batch[..k - m]));
    if m <= k < m + |batch| then Retried(acked, batch[k - m].id) else acked
  }

  function FlushCount(b: Buffer, ok: nat -> bool): (k: nat)
    ensures k <= |b.mem| + |Batch(b.rows)|
  {
    FirstFailure(ok, |b.mem| + |Batch(b.rows)|)
  }

  function Flush(b: Buffer, ok: nat -> bool): Buffer {
    b.(mem := [], rows := Acknowledge(b.rows, Batch(b.rows), |b.mem|, FlushCount(b, ok)))
  }

  /** What goes out: the memory entries first, then the batch of rows, up to the first refusal. */
  function FlushDelivered(b: Buffer, ok: nat -> bool): (r: seq<nat>) {
    (Nums(b.mem) + RowNums(Batch(b.rows)))[..FlushCount(b, ok)]
  }

  /** What is lost: memory entries at and after the first refusal. */
  function FlushDropped(b: Buffer, ok: nat -> bool): (r: seq<nat>) {
    Nums(b.mem)[Min(|b.mem|, FlushCount(b, ok))..]
  }
}
