/**
 The outgoing priority queue: one deque kept sorted by a stable sort after every push,
 with displacement at capacity. It is proved to behave as four FIFO queues served in
 priority order.
 */
module FlowControl {
  import opened Basics

  datatype Priority = Critical | High | Normal | Low {
    function Rank(): nat {
      match this
      case Critical => 0
      case High => 1
      case Normal => 2
      case Low => 3
    }
  }

  datatype Message = Message(priority: Priority, data: seq<byte>, seqNo: nat)

  // ---- The stable sort ----------------------------------------------------------

  ghost predicate Sorted(q: seq<Message>) {
    forall i, j :: 0 <= i < j < |q| ==> q[i].priority.Rank() <= q[j].priority.Rank()
  }

  /** The messages of one class, in queue order. */
  function Lane(q: seq<Message>, p: Priority): seq<Message> {
    if q == [] then []
    else if q[0].priority == p then [q[0]] + Lane(q[1..], p)
    else Lane(q[1..], p)
  }

  function Insert(m: Message, q: seq<Message>): seq<Message> {
    if q == [] || m.priority.Rank() <= q[0].priority.Rank() then [m] + q
    else [q[0]] + Insert(m, q[1..])
  }

  /** Sort by priority, equal priorities keeping their order. */
  function StableSort(q: seq<Message>): seq<Message> {
    if q == [] then [] else Insert(q[0], StableSort(q[1..]))
  }

  /** Every message of `q` is no more important than a message of rank `r`. */
  ghost predicate NotBefore(q: seq<Message>, r: nat) {
    forall x :: x in q ==> r <= x.priority.Rank()
  }

  lemma SortedCons(m: Message, q: seq<Message>)
    ensures Sorted([m] + q) <==> Sorted(q) && NotBefore(q, m.priority.Rank())
  {
    var all := [m] + q;
    if Sorted(all) {
      forall x | x in q ensures m.priority.Rank() <= x.priority.Rank() {
        var i :| 0 <= i < |q| && q[i] == x;
        assert all[0] == m && all[i + 1] == x;
      }
      forall i, j | 0 <= i < j < |q| ensures q[i].priority.Rank() <= q[j].priority.Rank() {
        assert all[i + 1] == q[i] && all[j + 1] == q[j];
      }
    }
  }

  lemma {:induction false} InsertSorted(m: Message, q: seq<Message>, r: nat)
    requires Sorted(q)
    ensures Sorted(Insert(m, q))
    ensures NotBefore(q, r) && r <= m.priority.Rank() ==> NotBefore(Insert(m, q), r)
  {
    if q == [] {
    } else {
      var head, tail := q[0], q[1..];
      assert q == [head] + tail;
      SortedCons(head, tail);
      if m.priority.Rank() <= head.priority.Rank() {
        SortedCons(m, q);
      } else {
        InsertSorted(m, tail, head.priority.Rank());
        InsertSorted(m, tail, r);
        SortedCons(head, Insert(m, tail));
      }
    }
  }

  lemma {:induction false} InsertLane(m: Message, q: seq<Message>, p: Priority)
    ensures Lane(Insert(m, q), p) == (if m.priority == p then [m] else []) + Lane(q, p)
  {
    if q == [] || m.priority.Rank() <= q[0].priority.Rank() {
      assert ([m] + q)[1..] == q;
    } else {
      InsertLane(m, q[1..], p);
      assert Insert(m, q)[1..] == Insert(m, q[1..]);
      assert q[0].priority != m.priority;
    }
  }

  lemma {:induction false} SortSpec(q: seq<Message>, p: Priority)
    ensures Sorted(StableSort(q))
    ensures Lane(StableSort(q), p) == Lane(q, p)
  {
    if q != [] {
      SortSpec(q[1..], p);
      InsertSorted(q[0], StableSort(q[1..]), 0);
      InsertLane(q[0], StableSort(q[1..]), p);
    }
  }

  // ---- Four queues ----------------------------------------------------------------

  datatype Lanes = Lanes(critical: seq<Message>, high: seq<Message>, normal: seq<Message>, low: seq<Message>) {
    function Get(p: Priority): seq<Message> {
      match p
      case Critical => critical
      case High => high
      case Normal => normal
      case Low => low
    }

    function Put(p: Priority, q: seq<Message>): Lanes {
      match p
      case Critical => this.(critical := q)
      case High => this.(high := q)
      case Normal => this.(normal := q)
      case Low => this.(low := q)
    }

    function Push(m: Message): Lanes {
      Put(m.priority, Get(m.priority) + [m])
    }

    /** Forget the newest message of a class. */
    function DropNewest(p: Priority): Lanes
      requires Get(p) != []
    {
      Put(p, Get(p)[..|Get(p)| - 1])
    }

    function Size(): nat {
      |critical| + |high| + |normal| + |low|
    }

    /** Service order. */
    function Flatten(): seq<Message> {
      critical + high + normal + low
    }

    /** The least important class that has a message. */
    function Worst(): Option<Priority> {
      if low != [] then Some(Low)
      else if normal != [] then Some(Normal)
      else if high != [] then Some(High)
      else if critical != [] then Some(Critical)
      else None
    }
  }

  function LanesOf(q: seq<Message>): Lanes {
    Lanes(Lane(q, Critical), Lane(q, High), Lane(q, Normal), Lane(q, Low))
  }

  lemma {:induction false} LaneConcat(a: seq<Message>, b: seq<Message>, p: Priority)
    ensures Lane(a + b, p) == Lane(a, p) + Lane(b, p)
  {
    if a == [] {
      assert a + b == b;
    } else {
      LaneConcat(a[1..], b, p);
      assert (a + b)[1..] == a[1..] + b;
    }
  }

  lemma {:induction false} LaneMembers(q: seq<Message>, p: Priority)
    ensures forall m :: m in Lane(q, p) <==> m in q && m.priority == p
  {
    if q != [] {
      LaneMembers(q[1..], p);
      assert q == [q[0]] + q[1..];
    }
  }

  lemma {:induction false} LaneAbsent(q: seq<Message>, p: Priority)
    requires forall m :: m in q ==> m.priority != p
    ensures Lane(q, p) == []
  {
    if q != [] {
      LaneAbsent(q[1..], p);
    }
  }

  lemma LanesCons(m: Message, q: seq<Message>)
    ensures LanesOf([m] + q) == LanesOf(q).Put(m.priority, [m] + LanesOf(q).Get(m.priority))
  {
    assert ([m] + q)[1..] == q;
  }

  /** In a sorted deque the classes before the first message's are empty. */
  lemma EarlierLanesEmpty(q: seq<Message>, r: nat, p: Priority)
    requires NotBefore(q, r) && p.Rank() < r
    ensures LanesOf(q).Get(p) == []
  {
    LaneAbsent(q, p);
  }

  /** A sorted deque is its four lanes one after the other. */
  lemma {:induction false} SortedIsFlattened(q: seq<Message>)
    requires Sorted(q)
    ensures q == LanesOf(q).Flatten() && LanesOf(q).Size() == |q|
  {
    if q != [] {
      var head, tail := q[0], q[1..];
      assert q == [head] + tail;
      SortedCons(head, tail);
      SortedIsFlattened(tail);
      forall p: Priority | p.Rank() < head.priority.Rank()
        ensures LanesOf(tail).Get(p) == []
      {
        EarlierLanesEmpty(tail, head.priority.Rank(), p);
      }
      PrependFlattened(LanesOf(tail), head);
      LanesCons(head, tail);
    }
  }

  lemma PrependFlattened(l: Lanes, m: Message)
    requires forall p: Priority :: p.Rank() < m.priority.Rank() ==> l.Get(p) == []
    ensures var r := l.Put(m.priority, [m] + l.Get(m.priority));
            r.Flatten() == [m] + l.Flatten() && r.Size() == 1 + l.Size()
  {
    assert m.priority.Rank() > 0 ==> l.Get(Critical) == [];
    assert m.priority.Rank() > 1 ==> l.Get(High) == [];
    assert m.priority.Rank() > 2 ==> l.Get(Normal) == [];
    match m.priority
    case Critical => assert ([m] + l.critical) + l.high + l.normal + l.low == [m] + l.Flatten();
    case High => assert ([m] + l.high) + l.normal + l.low == [m] + l.Flatten();
    case Normal => assert ([m] + l.normal) + l.low == [m] + l.Flatten();
    case Low => assert [m] + l.low == [m] + l.Flatten();
  }

  lemma LanePush(q: seq<Message>, m: Message, p: Priority)
    ensures Lane(q + [m], p) == if m.priority == p then Lane(q, p) + [m] else Lane(q, p)
  {
    LaneConcat(q, [m], p);
    assert [m][1..] == [];
    assert Lane(q, p) + [] == Lane(q, p);
  }

  lemma LanesPush(q: seq<Message>, m: Message)
    ensures LanesOf(q + [m]) == LanesOf(q).Push(m)
  {
    LanePush(q, m, Critical);
    LanePush(q, m, High);
    LanePush(q, m, Normal);
    LanePush(q, m, Low);
  }

  lemma SortedPush(q: seq<Message>, m: Message)
    ensures Sorted(StableSort(q + [m]))
    ensures LanesOf(StableSort(q + [m])) == LanesOf(q).Push(m)
  {
    SortSpec(q + [m], Critical);
    SortSpec(q + [m], High);
    SortSpec(q + [m], Normal);
    SortSpec(q + [m], Low);
    LanesPush(q, m);
  }

  /** When no class less important than `m`'s is queued, `m` is the one to go first. */
  lemma PushThenDrop(l: Lanes, m: Message)
    requires forall p: Priority :: p.Rank() > m.priority.Rank() ==> l.Get(p) == []
    ensures l.Push(m).Worst() == Some(m.priority)
    ensures l.Push(m).Get(m.priority) != [] && l.Push(m).DropNewest(m.priority) == l
  {
    var lane := l.Get(m.priority);
    assert (lane + [m])[..|lane|] == lane;
    assert m.priority.Rank() < 3 ==> l.Get(Low) == [];
    assert m.priority.Rank() < 2 ==> l.Get(Normal) == [];
    assert m.priority.Rank() < 1 ==> l.Get(High) == [];
  }

  /** In a sorted deque the classes after the last message's are empty. */
  lemma LaterLanesEmpty(q: seq<Message>, p: Priority)
    requires Sorted(q) && q != [] && p.Rank() > q[|q| - 1].priority.Rank()
    ensures LanesOf(q[..|q| - 1]).Get(p) == []
  {
    LaneAbsent(q[..|q| - 1], p);
  }

  /** Removing the last message of a sorted deque drops the newest of its least important class. */
  lemma DropLast(q: seq<Message>)
    requires Sorted(q) && q != []
    ensures var last := q[|q| - 1].priority;
            && LanesOf(q).Worst() == Some(last)
            && LanesOf(q).Get(last) != []
            && Sorted(q[..|q| - 1])
            && LanesOf(q[..|q| - 1]) == LanesOf(q).DropNewest(last)
  {
    var first, last := q[..|q| - 1], q[|q| - 1];
    assert q == first + [last];
    LanesPush(first, last);
    forall p: Priority | p.Rank() > last.priority.Rank()
      ensures LanesOf(first).Get(p) == []
    {
      LaterLanesEmpty(q, p);
    }
    PushThenDrop(LanesOf(first), last);
  }

  // ---- Specification of the two operations -----------------------------------------

  datatype Outcome = Outcome(lanes: Lanes, dropped: nat, accepted: bool)

  /** `sampledOut`: backpressure is active and the random draw fell above the sampling rate. */
  function Admit(l: Lanes, max: nat, m: Message, sampledOut: bool): Outcome {
    if m.priority.Critical? then Outcome(l.Push(m), 0, true)
    else if sampledOut then Outcome(l, 1, false)
    else if l.Size() < max then Outcome(l.Push(m), 0, true)
    else
      match l.Worst()
      case Some(w) =>
        if w.Rank() >= m.priority.Rank() && l.Get(w) != []
        then Outcome(l.DropNewest(w).Push(m), 1, true)
        else Outcome(l, 1, false)
      case None => Outcome(l, 1, false)
  }

  /** Serve `n` messages: each lane gives up what the more important ones leave of the quota. */
  function Served(l: Lanes, n: nat): Lanes {
    var h := Max(0, n - |l.critical|);
    var r := Max(0, h - |l.high|);
    var w := Max(0, r - |l.normal|);
    Lanes(Take(l.critical, n), Take(l.high, h), Take(l.normal, r), Take(l.low, w))
  }

  function Rest(l: Lanes, n: nat): Lanes {
    var s := Served(l, n);
    Lanes(l.critical[|s.critical|..], l.high[|s.high|..], l.normal[|s.normal|..], l.low[|s.low|..])
  }

  ghost predicate AllOf(q: seq<Message>, p: Priority) {
    forall i :: 0 <= i < |q| ==> q[i].priority == p
  }

  ghost predicate InClass(l: Lanes) {
    AllOf(l.critical, Critical) && AllOf(l.high, High) && AllOf(l.normal, Normal) && AllOf(l.low, Low)
  }

  lemma {:induction false} LaneOfClass(q: seq<Message>, p: Priority, own: Priority)
    requires AllOf(q, own)
    ensures Lane(q, p) == if p == own then q else []
  {
    if q != [] {
      LaneOfClass(q[1..], p, own);
    }
  }

  lemma LanesOfFlatten(l: Lanes)
    requires InClass(l)
    ensures LanesOf(l.Flatten()) == l
  {
    forall p: Priority
      ensures Lane(l.Flatten(), p) == l.Get(p)
    {
      LaneConcat(l.critical + l.high + l.normal, l.low, p);
      LaneConcat(l.critical + l.high, l.normal, p);
      LaneConcat(l.critical, l.high, p);
      LaneOfClass(l.critical, p, Critical);
      LaneOfClass(l.high, p, High);
      LaneOfClass(l.normal, p, Normal);
      LaneOfClass(l.low, p, Low);
    }
  }

  lemma LanesInClass(q: seq<Message>)
    ensures InClass(LanesOf(q))
  {
    forall p: Priority
      ensures AllOf(Lane(q, p), p)
    {
      LaneMembers(q, p);
      assert forall i :: 0 <= i < |Lane(q, p)| ==> Lane(q, p)[i] in Lane(q, p);
    }
  }

  function Skip(q: seq<Message>, n: nat): seq<Message> {
    q[|Take(q, n)|..]
  }

  lemma SplitTwo(a: seq<Message>, b: seq<Message>, n: nat)
    ensures Take(a + b, n) == Take(a, n) + Take(b, Max(0, n - |a|))
    ensures Skip(a + b, n) == Skip(a, n) + Skip(b, Max(0, n - |a|))
  {
  }

  lemma SplitFlatten(l: Lanes, n: nat)
    requires n <= l.Size()
    ensures l.Flatten()[..n] == Served(l, n).Flatten()
    ensures l.Flatten()[n..] == Rest(l, n).Flatten()
  {
    var two := l.critical + l.high;
    var three := two + l.normal;
    SplitTwo(l.critical, l.high, n);
    SplitTwo(two, l.normal, n);
    SplitTwo(three, l.low, n);
    var h := Max(0, n - |l.critical|);
    assert Max(0, n - |two|) == Max(0, h - |l.high|);
    assert Max(0, n - |three|) == Max(0, Max(0, h - |l.high|) - |l.normal|);
  }

  lemma RestInClass(l: Lanes, n: nat)
    requires InClass(l)
    ensures InClass(Rest(l, n)) && InClass(Served(l, n))
  {
  }

  /** Draining the front of a sorted deque serves the four queues by importance. */
  lemma DrainServes(q: seq<Message>, n: nat)
    requires Sorted(q) && n <= |q|
    ensures q[..n] == Served(LanesOf(q), n).Flatten()
    ensures LanesOf(q[n..]) == Rest(LanesOf(q), n)
    ensures Sorted(q[n..])
  {
    var l := LanesOf(q);
    SortedIsFlattened(q);
    SplitFlatten(l, n);
    LanesInClass(q);
    RestInClass(l, n);
    LanesOfFlatten(Rest(l, n));
  }

  /** In a sorted deque the last message alone decides whether anything can be displaced. */
  lemma LastDecides(q: seq<Message>, p: Priority)
    requires Sorted(q)
    ensures q == [] ==> LanesOf(q).Worst() == None
    ensures q != [] ==> LanesOf(q).Worst() == Some(q[|q| - 1].priority)
    ensures q != [] ==> LanesOf(q).Get(q[|q| - 1].priority) != []
    ensures forall i :: 0 <= i < |q| && q[i].priority.Rank() >= p.Rank() ==> q[|q| - 1].priority.Rank() >= p.Rank()
  {
    if q != [] {
      DropLast(q);
    }
  }

  /** What removing the message found by the search does to the lanes. */
  lemma Displaced(q: seq<Message>, p: Priority, i: nat)
    requires Sorted(q) && i < |q| && q[i].priority.Rank() >= p.Rank()
    requires forall k :: i < k < |q| ==> q[k].priority.Rank() < p.Rank()
    ensures var l, rest := LanesOf(q), q[..i] + q[i + 1..];
            && l.Worst().Some? && l.Worst().value.Rank() >= p.Rank() && l.Get(l.Worst().value) != []
            && Sorted(rest) && LanesOf(rest) == l.DropNewest(l.Worst().value)
  {
    LastDecides(q, p);
    DropLast(q);
    assert i == |q| - 1;
    assert q[..i] + q[i + 1..] == q[..|q| - 1];
  }

  // ---- The object --------------------------------------------------------------------

  class FlowControl {
    const maxQueueSize: nat
    var queue: seq<Message>
    var backpressureActive: bool
    var samplingRate: real
    var messagesDropped: nat

    ghost predicate Valid()
      reads this
    {
      Sorted(queue)
    }

    constructor (maxQueueSize: nat)
      ensures Valid() && LanesOf(queue) == Lanes([], [], [], [])
      ensures this.maxQueueSize == maxQueueSize && messagesDropped == 0 && !backpressureActive
    {
      this.maxQueueSize := maxQueueSize;
      queue, backpressureActive, samplingRate, messagesDropped := [], false, 1.0, 0;
    }

    /** Position of the last message at least as unimportant as `p`. */
    method LastNoMoreImportant(p: Priority) returns (pos: Option<nat>)
      ensures pos.Some? ==> pos.value < |queue| && queue[pos.value].priority.Rank() >= p.Rank()
      ensures pos.Some? ==> forall i :: pos.value < i < |queue| ==> queue[i].priority.Rank() < p.Rank()
      ensures pos.None? ==> forall i :: 0 <= i < |queue| ==> queue[i].priority.Rank() < p.Rank()
    {
      var i := |queue|;
      while i > 0
        invariant 0 <= i <= |queue|
        invariant forall k :: i <= k < |queue| ==> queue[k].priority.Rank() < p.Rank()
      {
        i := i - 1;
        if queue[i].priority.Rank() >= p.Rank() {
          return Some(i);
        }
      }
      return None;
    }

    /** `draw` is the random number compared with the sampling rate. */
    method Enqueue(m: Message, draw: real) returns (accepted: bool)
      requires Valid()
      modifies this`queue, this`messagesDropped
      ensures Valid()
      ensures var o := Admit(old(LanesOf(queue)), maxQueueSize, m, backpressureActive && draw > samplingRate);
              && LanesOf(queue) == o.lanes && accepted == o.accepted
              && messagesDropped == old(messagesDropped) + o.dropped
    {
      SortedIsFlattened(queue);
      if m.priority == Critical {
        SortedPush(queue, m);
        queue := StableSort(queue + [m]);
        return true;
      }
      if backpressureActive && draw > samplingRate {
        messagesDropped := messagesDropped + 1;
        return false;
      }
      ghost var l := LanesOf(queue);
      if |queue| >= maxQueueSize {
        var lowest := LastNoMoreImportant(m.priority);
        messagesDropped := messagesDropped + 1;
        if lowest.None? {
          LastDecides(queue, m.priority);
          return false;
        }
        var i := lowest.value;
        Displaced(queue, m.priority, i);
        queue := queue[..i] + queue[i + 1..];
      }
      SortedPush(queue, m);
      queue := StableSort(queue + [m]);
      return true;
    }

    method Dequeue(count: nat) returns (served: seq<Message>)
      requires Valid()
      modifies this`queue
      ensures Valid()
      ensures var n := Min(count, old(|queue|));
              served == Served(old(LanesOf(queue)), n).Flatten() && LanesOf(queue) == Rest(old(LanesOf(queue)), n)
    {
      var n := Min(count, |queue|);
      DrainServes(queue, n);
      served := queue[..n];
      queue := queue[n..];
    }
  }
}
