/** Whole runs of the priority queue: nothing is miscounted, no critical message is lost. */
module FlowControlRuns {
  import opened Basics
  import opened FlowControl

  datatype Action = Offer(m: Message, sampledOut: bool) | Serve(count: nat)

  datatype History = History(lanes: Lanes, offered: seq<Message>, served: seq<Message>, dropped: nat)

  function Step(h: History, max: nat, a: Action): History {
    match a
    case Offer(m, sampledOut) =>
      var o := Admit(h.lanes, max, m, sampledOut);
      History(o.lanes, h.offered + [m], h.served, h.dropped + o.dropped)
    case Serve(count) =>
      var n := Min(count, h.lanes.Size());
      History(Rest(h.lanes, n), h.offered, h.served + Served(h.lanes, n).Flatten(), h.dropped)
  }

  function Run(max: nat, acts: seq<Action>): History {
    if acts == [] then History(Lanes([], [], [], []), [], [], 0)
    else Step(Run(max, acts[..|acts| - 1]), max, acts[|acts| - 1])
  }

  function Offers(acts: seq<Action>): nat {
    if acts == [] then 0
    else Offers(acts[..|acts| - 1]) + if acts[|acts| - 1].Offer? then 1 else 0
  }

  lemma PushInClass(l: Lanes, m: Message)
    requires InClass(l)
    ensures InClass(l.Push(m))
  {
  }

  lemma DropInClass(l: Lanes, p: Priority)
    requires InClass(l) && l.Get(p) != []
    ensures InClass(l.DropNewest(p))
  {
  }

  lemma AdmitInClass(l: Lanes, max: nat, m: Message, sampledOut: bool)
    requires InClass(l)
    ensures InClass(Admit(l, max, m, sampledOut).lanes)
  {
    PushInClass(l, m);
    if l.Worst().Some? && l.Get(l.Worst().value) != [] {
      DropInClass(l, l.Worst().value);
      PushInClass(l.DropNewest(l.Worst().value), m);
    }
  }

  lemma {:induction false} RunInClass(max: nat, acts: seq<Action>)
    ensures InClass(Run(max, acts).lanes)
  {
    if acts != [] {
      RunInClass(max, acts[..|acts| - 1]);
      var h := Run(max, acts[..|acts| - 1]);
      match acts[|acts| - 1]
      case Offer(m, sampledOut) => AdmitInClass(h.lanes, max, m, sampledOut);
      case Serve(count) => RestInClass(h.lanes, Min(count, h.lanes.Size()));
    }
  }

  lemma AdmitCounts(l: Lanes, max: nat, m: Message, sampledOut: bool)
    ensures var o := Admit(l, max, m, sampledOut);
            && o.lanes.Size() + o.dropped == l.Size() + 1
            && (|l.high| + |l.normal| + |l.low| <= max ==>
                  |o.lanes.high| + |o.lanes.normal| + |o.lanes.low| <= max)
  {
  }

  /**
   Every message offered is served, still queued or counted as dropped; and the
   non-critical messages queued never exceed the configured size.
   */
  lemma {:induction false} EveryOfferAccountedFor(max: nat, acts: seq<Action>)
    ensures var h := Run(max, acts);
            && Offers(acts) == |h.offered| == |h.served| + h.lanes.Size() + h.dropped
            && |h.lanes.high| + |h.lanes.normal| + |h.lanes.low| <= max
  {
    if acts != [] {
      var h := Run(max, acts[..|acts| - 1]);
      EveryOfferAccountedFor(max, acts[..|acts| - 1]);
      match acts[|acts| - 1]
      case Offer(m, sampledOut) => AdmitCounts(h.lanes, max, m, sampledOut);
      case Serve(count) => SplitFlatten(h.lanes, Min(count, h.lanes.Size()));
    }
  }

  // ---- Order within a class ------------------------------------------------------------

  /** `a` is `b` with some elements left out. */
  ghost predicate Subsequence(a: seq<Message>, b: seq<Message>) {
    if b == [] then a == []
    else
      || Subsequence(a, b[..|b| - 1])
      || (a != [] && a[|a| - 1] == b[|b| - 1] && Subsequence(a[..|a| - 1], b[..|b| - 1]))
  }

  lemma SubsequencePush(a: seq<Message>, b: seq<Message>, m: Message)
    requires Subsequence(a, b)
    ensures Subsequence(a + [m], b + [m]) && Subsequence(a, b + [m])
  {
    assert (a + [m])[..|a|] == a && (b + [m])[..|b|] == b;
  }

  lemma {:induction false} SubsequenceDrop(a: seq<Message>, b: seq<Message>)
    requires Subsequence(a, b) && a != []
    ensures Subsequence(a[..|a| - 1], b)
  {
    if Subsequence(a, b[..|b| - 1]) {
      SubsequenceDrop(a, b[..|b| - 1]);
    }
  }

  /** What of class `p` has been let through so far: served messages, then the queued ones. */
  function Kept(h: History, p: Priority): seq<Message> {
    Lane(h.served, p) + h.lanes.Get(p)
  }

  lemma LaneOfFlatten(l: Lanes, p: Priority)
    requires InClass(l)
    ensures Lane(l.Flatten(), p) == l.Get(p)
  {
    LanesOfFlatten(l);
    assert LanesOf(l.Flatten()).Get(p) == Lane(l.Flatten(), p);
  }

  lemma ServedAndRest(l: Lanes, n: nat, p: Priority)
    ensures Served(l, n).Get(p) + Rest(l, n).Get(p) == l.Get(p)
  {
    var h := Max(0, n - |l.critical|);
    var r := Max(0, h - |l.high|);
    match p
    case Critical => TakeThenSkip(l.critical, n);
    case High => TakeThenSkip(l.high, h);
    case Normal => TakeThenSkip(l.normal, r);
    case Low => TakeThenSkip(l.low, Max(0, r - |l.normal|));
  }

  lemma TakeThenSkip(q: seq<Message>, n: nat)
    ensures Take(q, n) + q[|Take(q, n)|..] == q
  {
  }

  lemma ServeKeeps(h: History, count: nat, p: Priority)
    requires InClass(h.lanes)
    ensures Kept(Step(h, 0, Serve(count)), p) == Kept(h, p)
  {
    var n := Min(count, h.lanes.Size());
    RestInClass(h.lanes, n);
    ServedKept(h.served, Served(h.lanes, n), Rest(h.lanes, n), p);
    ServedAndRest(h.lanes, n, p);
  }

  lemma ServedKept(served: seq<Message>, now: Lanes, rest: Lanes, p: Priority)
    requires InClass(now)
    ensures Lane(served + now.Flatten(), p) + rest.Get(p) == Lane(served, p) + (now.Get(p) + rest.Get(p))
  {
    LaneOfFlatten(now, p);
    LaneConcat(served, now.Flatten(), p);
  }

  /** An admission keeps each class, perhaps without its newest message, and appends the newcomer if accepted. */
  lemma AdmitShape(l: Lanes, max: nat, m: Message, sampledOut: bool, p: Priority) returns (base: seq<Message>)
    ensures base == l.Get(p) || (p != Critical && l.Get(p) != [] && base == l.Get(p)[..|l.Get(p)| - 1])
    ensures var o := Admit(l, max, m, sampledOut);
            && o.lanes.Get(p) == (if o.accepted && m.priority == p then base + [m] else base)
            && (m.priority == Critical ==> o.accepted)
  {
    var o := Admit(l, max, m, sampledOut);
    base := if o.accepted && o.dropped == 1 && p == l.Worst().value then l.Get(p)[..|l.Get(p)| - 1] else l.Get(p);
  }

  lemma ShrinkSubsequence(served: seq<Message>, queued: seq<Message>, wanted: seq<Message>)
    requires Subsequence(served + queued, wanted) && queued != []
    ensures Subsequence(served + queued[..|queued| - 1], wanted)
  {
    var all := served + queued;
    SubsequenceDrop(all, wanted);
    assert all[..|all| - 1] == served + queued[..|queued| - 1];
  }

  lemma ExtendSubsequence(served: seq<Message>, base: seq<Message>, wanted: seq<Message>, m: Message)
    requires Subsequence(served + base, wanted)
    ensures Subsequence(served + base, wanted + [m])
    ensures Subsequence(served + (base + [m]), wanted + [m])
  {
    SubsequencePush(served + base, wanted, m);
    assert (served + base) + [m] == served + (base + [m]);
  }

  lemma OfferKeeps(h: History, max: nat, m: Message, sampledOut: bool, p: Priority)
    requires Subsequence(Kept(h, p), Lane(h.offered, p))
    ensures Subsequence(Kept(Step(h, max, Offer(m, sampledOut)), p), Lane(h.offered + [m], p))
    ensures p == Critical && Kept(h, p) == Lane(h.offered, p) ==>
              Kept(Step(h, max, Offer(m, sampledOut)), p) == Lane(h.offered + [m], p)
  {
    var wanted, served, queued := Lane(h.offered, p), Lane(h.served, p), h.lanes.Get(p);
    var base := AdmitShape(h.lanes, max, m, sampledOut, p);
    if base != queued {
      ShrinkSubsequence(served, queued, wanted);
    }
    ExtendSubsequence(served, base, wanted, m);
    LanePush(h.offered, m, p);
    if m.priority == p {
      assert served + (queued + [m]) == (served + queued) + [m];
    }
  }

  /**
   Within a class, what is served and then queued is what was offered with some messages left
   out, in the same order. Of the critical class nothing is left out.
   */
  lemma {:induction false} ClassesAreFifo(max: nat, acts: seq<Action>, p: Priority)
    ensures var h := Run(max, acts);
            && Subsequence(Kept(h, p), Lane(h.offered, p))
            && (p == Critical ==> Kept(h, p) == Lane(h.offered, p))
  {
    if acts != [] {
      var before := acts[..|acts| - 1];
      ClassesAreFifo(max, before, p);
      match acts[|acts| - 1]
      case Offer(m, sampledOut) => OfferKeeps(Run(max, before), max, m, sampledOut, p);
      case Serve(count) =>
        RunInClass(max, before);
        ServeKeeps(Run(max, before), count, p);
    }
  }

  /** At capacity the newcomer displaces the newest message of the worst class, or is refused. */
  lemma DisplacesWorstOrRefuses(l: Lanes, max: nat, m: Message)
    requires m.priority != Critical && l.Size() >= max
    ensures var o := Admit(l, max, m, false);
            && o.dropped == 1
            && (o.accepted <==> exists p: Priority :: l.Get(p) != [] && p.Rank() >= m.priority.Rank())
            && (!o.accepted ==> o.lanes == l)
            && (o.accepted ==>
                  exists w: Priority ::
                    && l.Get(w) != [] && w.Rank() >= m.priority.Rank()
                    && (forall p: Priority :: l.Get(p) != [] ==> p.Rank() <= w.Rank())
                    && o.lanes == l.Put(w, l.Get(w)[..|l.Get(w)| - 1]).Push(m))
  {
    assert forall p: Priority :: l.Get(p) != [] ==> l.Worst().Some? && p.Rank() <= l.Worst().value.Rank();
    if l.Worst().Some? {
      assert l.Get(l.Worst().value) != [];
    }
  }

  // ---- Who gets in ------------------------------------------------------------------------

  /** The message becomes the last of its class, and nothing else changes. */
  ghost predicate JoinsItsClass(before: Lanes, m: Message, after: Lanes) {
    && after.Get(m.priority) == before.Get(m.priority) + [m]
    && forall p: Priority :: p != m.priority ==> after.Get(p) == before.Get(p)
  }

  /** A critical message always gets in; any other does when it is not sampled out and there is room. */
  lemma RoomAdmits(l: Lanes, max: nat, m: Message, sampledOut: bool)
    requires m.priority == Critical || (!sampledOut && l.Size() < max)
    ensures var o := Admit(l, max, m, sampledOut);
            o.accepted && o.dropped == 0 && JoinsItsClass(l, m, o.lanes)
  {
  }

  /** A message that is sampled out is refused and counted, and the queue stays as it was. */
  lemma SampledOutIsRefused(l: Lanes, max: nat, m: Message)
    requires m.priority != Critical
    ensures Admit(l, max, m, true) == Outcome(l, 1, false)
  {
  }

  /** An offer that costs a message: not a critical one, and sampled out or made to a full queue. */
  predicate CostsOne(l: Lanes, max: nat, a: Action) {
    a.Offer? && a.m.priority != Critical && (a.sampledOut || l.Size() >= max)
  }

  /** How many of the actions cost a message. */
  function Costs(max: nat, acts: seq<Action>): nat {
    if acts == [] then 0
    else
      var before := acts[..|acts| - 1];
      Costs(max, before) + if CostsOne(Run(max, before).lanes, max, acts[|acts| - 1]) then 1 else 0
  }

  lemma DropsIff(l: Lanes, max: nat, m: Message, sampledOut: bool)
    ensures Admit(l, max, m, sampledOut).dropped == if CostsOne(l, max, Offer(m, sampledOut)) then 1 else 0
  {
  }

  /** Over every run, the drop counter counts exactly the offers that cost a message. */
  lemma {:induction false} DropsAreCounted(max: nat, acts: seq<Action>)
    ensures Run(max, acts).dropped == Costs(max, acts)
  {
    if acts != [] {
      var before, a := acts[..|acts| - 1], acts[|acts| - 1];
      DropsAreCounted(max, before);
      match a
      case Offer(m, sampledOut) => DropsIff(Run(max, before).lanes, max, m, sampledOut);
      case Serve(_) =>
    }
  }
}
