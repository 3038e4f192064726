/**
 Request/response correlation in the database inspector: a map from (pid, port) to the
 pending request, updated by each captured payload. Over whole event histories the map is
 shown to hold exactly the requests that have had no answer yet.
 */
module DbInspector {
  import opened Basics

  type Bytes = seq<byte>
  type Pid = p: nat | p < 0x1_0000_0000
  type Port = p: nat | p < 0x1_0000

  const PG_PORT: Port := 5432
  const MYSQL_PORT: Port := 3306
  const REDIS_PORT: Port := 6379
  const REDIS_SENTINEL_PORT: Port := 26379

  datatype Protocol = Unknown | PostgreSQL | MySQL | Redis | Encrypted

  /** A captured payload; `now` is when it was seen. */
  datatype Capture = Capture(payload: Bytes, port: Port, pid: Pid, now: nat)

  /** The text fields kept for a request are functions of its payload, so the payload stands for them. */
  datatype Request = Request(sentAt: nat, protocol: Protocol, payload: Bytes)

  datatype Event = Event(protocol: Protocol, request: Option<Request>, latency: nat, port: Port, pid: Pid)

  datatype Stats = Stats(total: nat, pg: nat, mysql: nat, redis: nat, encrypted: nat, unknown: nat)

  /** pid << 16 | port. */
  function SocketKey(pid: Pid, port: Port): nat {
    pid * 0x1_0000 + port
  }

  lemma SocketKeyInjective(pid: Pid, port: Port, pid': Pid, port': Port)
    ensures SocketKey(pid, port) == SocketKey(pid', port') <==> pid == pid' && port == port'
  {
  }

  // ---- Classification -----------------------------------------------------------------

  predicate IsLetter(b: byte) {
    65 <= b <= 90 || 97 <= b <= 122
  }

  function Detect(payload: Bytes, port: Port): Protocol {
    if |payload| < 2 then Unknown
    else if payload[0] == 0x16 && payload[1] == 0x03 then Encrypted
    // R K T D C E Z N S Q P B
    else if port == PG_PORT && payload[0] in [82, 75, 84, 68, 67, 69, 90, 78, 83, 81, 80, 66] then PostgreSQL
    else if port == MYSQL_PORT && |payload| >= 5 && payload[4] in [0x0a, 0x00, 0xff, 0x03, 0x17] then MySQL
    // * + - : $
    else if port in [REDIS_PORT, REDIS_SENTINEL_PORT]
            && (payload[0] in [42, 43, 45, 58, 36] || IsLetter(payload[0])) then Redis
    else Unknown
  }

  /** `Answer` always produces an event; `Completion` only when a request is pending. */
  datatype Kind = Query | Answer | Completion | Other

  function Classify(payload: Bytes, port: Port): Kind
    requires payload != []
  {
    match Detect(payload, port)
    case PostgreSQL =>
      if payload[0] in [81, 80] then Query              // Q P
      else if payload[0] in [67, 69] then Answer        // C E
      else if payload[0] == 90 then Completion          // Z
      else Other
    case MySQL =>
      if payload[4] in [0x03, 0x17] then Query
      else if payload[4] in [0x00, 0xff] then Answer
      else Other
    case Redis =>
      if payload[0] == 42 || IsLetter(payload[0]) then Query
      else Completion
    case _ => Other
  }

  // ---- One payload, on values --------------------------------------------------------------

  datatype State = State(pending: map<nat, Request>, stats: Stats)

  function Record(s: Stats, p: Protocol): Stats {
    var t := s.(total := s.total + 1);
    match p
    case Unknown => t.(unknown := t.unknown + 1)
    case Encrypted => t.(encrypted := t.encrypted + 1)
    case _ => t
  }

  function Emit(s: Stats, p: Protocol): Stats {
    match p
    case PostgreSQL => s.(pg := s.pg + 1)
    case MySQL => s.(mysql := s.mysql + 1)
    case Redis => s.(redis := s.redis + 1)
    case _ => s
  }

  function Lookup(pending: map<nat, Request>, key: nat): Option<Request> {
    if key in pending then Some(pending[key]) else None
  }

  function Elapsed(r: Option<Request>, now: nat): nat {
    match r
    case Some(q) => Max(0, now - q.sentAt)
    case None => 0
  }

  function Observe(s: State, c: Capture): (State, Option<Event>) {
    if c.payload == [] then (s, None)
    else
      var p := Detect(c.payload, c.port);
      var key := SocketKey(c.pid, c.port);
      var t := s.(stats := Record(s.stats, p));
      var found := Lookup(s.pending, key);
      var answered := (State(s.pending - {key}, Emit(t.stats, p)),
                       Some(Event(p, found, Elapsed(found, c.now), c.port, c.pid)));
      if p.Encrypted? then (t, Some(Event(Encrypted, None, 0, c.port, c.pid)))
      else match Classify(c.payload, c.port)
        case Query => (t.(pending := s.pending[key := Request(c.now, p, c.payload)]), None)
        case Answer => answered
        case Completion => if found.Some? then answered else (t, None)
        case Other => (t, None)
  }

  // ---- The object ------------------------------------------------------------------------------

  class DbInspector {
    var pending: map<nat, Request>
    var stats: Stats

    ghost function Model(): State
      reads this
    {
      State(pending, stats)
    }

    constructor ()
      ensures Model() == State(map[], Stats(0, 0, 0, 0, 0, 0))
    {
      pending, stats := map[], Stats(0, 0, 0, 0, 0, 0);
    }

    /** Remember a request, replacing any earlier one on the same socket. */
    method Remember(c: Capture, p: Protocol)
      modifies this`pending
      ensures pending == old(pending)[SocketKey(c.pid, c.port) := Request(c.now, p, c.payload)]
    {
      pending := pending[SocketKey(c.pid, c.port) := Request(c.now, p, c.payload)];
    }

    /** Take the pending request off the map and report it. */
    method Report(c: Capture, p: Protocol) returns (event: Event)
      modifies this
      ensures var key := SocketKey(c.pid, c.port);
              && event == Event(p, Lookup(old(pending), key), Elapsed(Lookup(old(pending), key), c.now), c.port, c.pid)
              && pending == old(pending) - {key}
      ensures stats == Emit(old(stats), p)
    {
      var key := SocketKey(c.pid, c.port);
      var request := Lookup(pending, key);
      pending := pending - {key};
      event := Event(p, request, Elapsed(request, c.now), c.port, c.pid);
      stats := Emit(stats, p);
    }

    method ParsePostgresql(c: Capture) returns (event: Option<Event>)
      requires c.payload != [] && Detect(c.payload, c.port) == PostgreSQL
      modifies this
      ensures pending == Observe(old(Model()), c).0.pending && event == Observe(old(Model()), c).1
      ensures stats == if event.Some? then Emit(old(stats), PostgreSQL) else old(stats)
    {
      var tag := c.payload[0];
      if tag == 81 || tag == 80 {
        Remember(c, PostgreSQL);
        return None;
      }
      if tag == 67 || tag == 69 {
        var e := Report(c, PostgreSQL);
        return Some(e);
      }
      if tag == 90 && SocketKey(c.pid, c.port) in pending {
        var e := Report(c, PostgreSQL);
        return Some(e);
      }
      return None;
    }

    method ParseMysql(c: Capture) returns (event: Option<Event>)
      requires c.payload != [] && Detect(c.payload, c.port) == MySQL
      modifies this
      ensures pending == Observe(old(Model()), c).0.pending && event == Observe(old(Model()), c).1
      ensures stats == if event.Some? then Emit(old(stats), MySQL) else old(stats)
    {
      var tag := c.payload[4];
      if tag == 0x03 || tag == 0x17 {
        Remember(c, MySQL);
        return None;
      }
      if tag == 0x00 || tag == 0xff {
        var e := Report(c, MySQL);
        return Some(e);
      }
      return None;
    }

    method ParseRedis(c: Capture) returns (event: Option<Event>)
      requires c.payload != [] && Detect(c.payload, c.port) == Redis
      modifies this
      ensures pending == Observe(old(Model()), c).0.pending && event == Observe(old(Model()), c).1
      ensures stats == if event.Some? then Emit(old(stats), Redis) else old(stats)
    {
      var tag := c.payload[0];
      if tag == 42 || IsLetter(tag) {
        Remember(c, Redis);
        return None;
      }
      if SocketKey(c.pid, c.port) in pending {
        var e := Report(c, Redis);
        return Some(e);
      }
      return None;
    }

    method Inspect(c: Capture) returns (event: Option<Event>)
      modifies this
      ensures (Model(), event) == Observe(old(Model()), c)
    {
      if c.payload == [] {
        return None;
      }
      var p := Detect(c.payload, c.port);
      stats := Record(stats, p);
      match p {
        case Encrypted => event := Some(Event(Encrypted, None, 0, c.port, c.pid));
        case PostgreSQL => event := ParsePostgresql(c);
        case MySQL => event := ParseMysql(c);
        case Redis => event := ParseRedis(c);
        case Unknown => event := None;
      }
    }
  }

  // ---- Histories ---------------------------------------------------------------------------------

  datatype Run = Run(state: State, events: seq<Event>)

  function After(h: seq<Capture>): Run {
    if h == [] then Run(State(map[], Stats(0, 0, 0, 0, 0, 0)), [])
    else
      var before := After(h[..|h| - 1]);
      var (s, e) := Observe(before.state, h[|h| - 1]);
      Run(s, before.events + match e case Some(v) => [v] case None => [])
  }

  predicate IsQuery(c: Capture) {
    c.payload != [] && Classify(c.payload, c.port) == Query
  }

  predicate IsAnswer(c: Capture) {
    c.payload != [] && Classify(c.payload, c.port) in [Answer, Completion]
  }

  predicate SameSocket(c: Capture, pid: Pid, port: Port) {
    c.pid == pid && c.port == port
  }

  /** Request `i` is on this socket and nothing since has replaced or answered it. */
  ghost predicate Outstanding(h: seq<Capture>, i: nat, pid: Pid, port: Port) {
    && i < |h| && SameSocket(h[i], pid, port) && IsQuery(h[i])
    && forall j :: i < j < |h| && SameSocket(h[j], pid, port) ==> !IsQuery(h[j]) && !IsAnswer(h[j])
  }

  function RequestOf(c: Capture): Request {
    Request(c.now, Detect(c.payload, c.port), c.payload)
  }

  /** What the inspector holds for a socket is described by the history. */
  ghost predicate Explains(h: seq<Capture>, found: Option<Request>, pid: Pid, port: Port) {
    match found
    case Some(r) => exists i: nat :: Outstanding(h, i, pid, port) && r == RequestOf(h[i])
    case None => forall i: nat :: !Outstanding(h, i, pid, port)
  }

  lemma OutstandingUnique(h: seq<Capture>, i: nat, j: nat, pid: Pid, port: Port)
    requires Outstanding(h, i, pid, port) && Outstanding(h, j, pid, port)
    ensures i == j
  {
  }

  lemma ExplainsStep(h: seq<Capture>, c: Capture, s: State, pid: Pid, port: Port)
    requires Explains(h, Lookup(s.pending, SocketKey(pid, port)), pid, port)
    ensures Explains(h + [c], Lookup(Observe(s, c).0.pending, SocketKey(pid, port)), pid, port)
  {
    var key := SocketKey(pid, port);
    var g := h + [c];
    SocketKeyInjective(pid, port, c.pid, c.port);
    var found := Lookup(Observe(s, c).0.pending, key);
    if SameSocket(c, pid, port) && IsQuery(c) {
      assert Outstanding(g, |h|, pid, port);
    } else if SameSocket(c, pid, port) && IsAnswer(c) {
      assert found == None;
      forall i: nat ensures !Outstanding(g, i, pid, port) {
        assert i < |h| ==> SameSocket(g[|h|], pid, port);
      }
    } else {
      assert found == Lookup(s.pending, key);
      forall i: nat ensures Outstanding(g, i, pid, port) <==> Outstanding(h, i, pid, port) {
        assert forall j :: 0 <= j < |h| ==> g[j] == h[j];
      }
      if found.Some? {
        var i: nat :| Outstanding(h, i, pid, port) && found.value == RequestOf(h[i]);
        assert Outstanding(g, i, pid, port) && g[i] == h[i];
      }
    }
  }

  /**
   After any history, a socket's entry is the latest request on that pid and port that no
   answer has followed, and there is no entry when there is no such request.
   */
  lemma {:induction false} PendingIsLatestUnanswered(h: seq<Capture>, pid: Pid, port: Port)
    ensures Explains(h, Lookup(After(h).state.pending, SocketKey(pid, port)), pid, port)
  {
    if h != [] {
      var before, c := h[..|h| - 1], h[|h| - 1];
      PendingIsLatestUnanswered(before, pid, port);
      ExplainsStep(before, c, After(before).state, pid, port);
      assert before + [c] == h;
    }
  }

  // ---- Reports ---------------------------------------------------------------------------------------

  /** The event produced by the j-th capture. */
  function EventAt(h: seq<Capture>, j: nat): Option<Event>
    requires j < |h|
  {
    Observe(After(h[..j]).state, h[j]).1
  }

  /** The j-th capture answers request `i`. */
  ghost predicate Answers(h: seq<Capture>, j: nat, i: nat) {
    j < |h| && IsAnswer(h[j]) && Outstanding(h[..j], i, h[j].pid, h[j].port)
  }

  lemma AnsweredIsOver(h: seq<Capture>, i: nat, j: nat, k: nat)
    requires Answers(h, j, i) && j < k < |h|
    ensures !Answers(h, k, i)
  {
    var before := h[..k];
    assert before[i] == h[..j][i] == h[i] && before[j] == h[j];
  }

  lemma PortDecides(c: Capture, d: Capture)
    requires c.port == d.port
    requires Detect(c.payload, c.port) in [PostgreSQL, MySQL, Redis]
    requires Detect(d.payload, d.port) in [PostgreSQL, MySQL, Redis]
    ensures Detect(c.payload, c.port) == Detect(d.payload, d.port)
  {
  }

  /**
   The event of the j-th capture carries a request exactly when the capture answers one, and then
   it carries that request, under the same protocol, and the time that has passed since it. An event without a
   request reports no time at all.
   */
  lemma EventReportsAnswered(h: seq<Capture>, j: nat)
    requires j < |h|
    ensures var e := EventAt(h, j);
            && (e.Some? && e.value.request.Some? <==> exists i: nat :: Answers(h, j, i))
            && (e.Some? && e.value.request.None? ==> e.value.latency == 0)
            && (forall i: nat :: Answers(h, j, i) ==>
                  && e.value.request == Some(Request(h[i].now, e.value.protocol, h[i].payload))
                  && e.value.protocol == RequestOf(h[i]).protocol
                  && e.value.latency == Max(0, h[j].now - h[i].now)
                  && e.value.pid == h[i].pid && e.value.port == h[i].port)
  {
    var c, before := h[j], h[..j];
    var found := Lookup(After(before).state.pending, SocketKey(c.pid, c.port));
    PendingIsLatestUnanswered(before, c.pid, c.port);
    if IsAnswer(c) && found.Some? {
      var i: nat :| Outstanding(before, i, c.pid, c.port) && found.value == RequestOf(before[i]);
      assert Answers(h, j, i) && before[i] == h[i];
      PortDecides(c, h[i]);
      forall k: nat | Answers(h, j, k)
        ensures k == i
      {
        OutstandingUnique(before, i, k, c.pid, c.port);
      }
    }
  }

  /**
   Which captures produce an event at all, and under which protocol: TLS handshakes, answers, and completions of a
   request that is still to be answered.
   */
  lemma EventIff(h: seq<Capture>, j: nat)
    requires j < |h|
    ensures var c, e := h[j], EventAt(h, j);
            && (e.Some? <==>
                  c.payload != []
                  && (Detect(c.payload, c.port) == Encrypted
                      || Classify(c.payload, c.port) == Answer
                      || (Classify(c.payload, c.port) == Completion && exists i: nat :: Answers(h, j, i))))
            && (e.Some? ==>
                  e.value.protocol == Detect(c.payload, c.port) && e.value.pid == c.pid && e.value.port == c.port)
  {
    EventReportsAnswered(h, j);
  }

  /** The captures of a history all bear different times. */
  ghost predicate TimesDiffer(h: seq<Capture>) {
    forall i, j :: 0 <= i < j < |h| ==> h[i].now != h[j].now
  }

  predicate Reports(e: Option<Event>) {
    e.Some? && e.value.request.Some?
  }

  /**
   Two events that carry a request carry those of two different captures; so when the captures bear different
   times, no request is ever reported twice.
   */
  lemma ReportedAtMostOnce(h: seq<Capture>, j: nat, k: nat)
    requires j < k < |h| && Reports(EventAt(h, j)) && Reports(EventAt(h, k))
    ensures exists a: nat, b: nat ::
              && a != b && Answers(h, j, a) && Answers(h, k, b)
              && EventAt(h, j).value.request == Some(RequestOf(h[a]))
              && EventAt(h, k).value.request == Some(RequestOf(h[b]))
    ensures TimesDiffer(h) ==> EventAt(h, j).value.request != EventAt(h, k).value.request
  {
    EventReportsAnswered(h, j);
    EventReportsAnswered(h, k);
    var a: nat :| Answers(h, j, a);
    var b: nat :| Answers(h, k, b);
    AnsweredIsOver(h, a, j, k);
    assert a != b;
  }

  // ---- What the bytes mean -------------------------------------------------------------------------------

  predicate StartsWith(payload: Bytes, tags: string) {
    payload != [] && payload[0] as char in tags
  }

  /** A TLS record of version 3, on any port. */
  predicate IsTls(payload: Bytes) {
    |payload| >= 2 && payload[0] == 0x16 && payload[1] == 0x03
  }

  /** Of PostgreSQL, on port 5432: simple queries and parses ask, command completions and errors answer. */
  lemma PostgresKinds(payload: Bytes)
    requires |payload| >= 2 && !IsTls(payload)
    ensures Detect(payload, 5432) == (if StartsWith(payload, "RKTDCEZNSQPB") then PostgreSQL else Unknown)
    ensures Classify(payload, 5432) == Query <==> StartsWith(payload, "QP")
    ensures Classify(payload, 5432) == Answer <==> StartsWith(payload, "CE")
    ensures Classify(payload, 5432) == Completion <==> StartsWith(payload, "Z")
  {
  }

  /** Of MySQL, on port 3306, behind four bytes of header: queries and executions ask, OK and ERR packets answer. */
  lemma MysqlKinds(payload: Bytes)
    requires |payload| >= 2 && !IsTls(payload)
    ensures Detect(payload, 3306)
         == (if |payload| >= 5 && payload[4] in [0x0a, 0x00, 0xff, 0x03, 0x17] then MySQL else Unknown)
    ensures Classify(payload, 3306) == Query <==> |payload| >= 5 && payload[4] in [0x03, 0x17]
    ensures Classify(payload, 3306) == Answer <==> |payload| >= 5 && payload[4] in [0x00, 0xff]
    ensures Classify(payload, 3306) != Completion
  {
  }

  /** Of Redis, on ports 6379 and 26379: arrays and inline commands ask, the other types complete. */
  lemma RedisKinds(payload: Bytes, port: Port)
    requires |payload| >= 2 && !IsTls(payload) && (port == 6379 || port == 26379)
    ensures var first := payload[0] as char;
            var inline := 'A' <= first <= 'Z' || 'a' <= first <= 'z';
            && Detect(payload, port) == (if StartsWith(payload, "*+-:$") || inline then Redis else Unknown)
            && (Classify(payload, port) == Query <==> StartsWith(payload, "*") || inline)
            && (Classify(payload, port) == Completion <==> StartsWith(payload, "+-:$"))
            && Classify(payload, port) != Answer
  {
  }

  /** Everything else: short payloads and other ports are unknown, TLS is encrypted, and neither asks nor answers. */
  lemma OtherKinds(payload: Bytes, port: Port)
    requires payload != []
    ensures |payload| < 2 ==> Detect(payload, port) == Unknown
    ensures IsTls(payload) ==> Detect(payload, port) == Encrypted
    ensures |payload| >= 2 && !IsTls(payload) && port !in [5432, 3306, 6379, 26379] ==> Detect(payload, port) == Unknown
    ensures Detect(payload, port) in [Unknown, Encrypted] ==> Classify(payload, port) == Other
  {
  }

  // ---- Counters ----------------------------------------------------------------------------------------

  /** How many payloads that are not empty were detected as `p`. */
  function Detected(h: seq<Capture>, p: Protocol): nat {
    if h == [] then 0
    else
      var c := h[|h| - 1];
      Detected(h[..|h| - 1], p) + if c.payload != [] && Detect(c.payload, c.port) == p then 1 else 0
  }

  /** How many payloads are not empty. */
  function Nonempty(h: seq<Capture>): nat {
    if h == [] then 0 else Nonempty(h[..|h| - 1]) + if h[|h| - 1].payload != [] then 1 else 0
  }

  lemma ObserveDetected(s: State, c: Capture)
    ensures var t, one := Observe(s, c).0.stats, if c.payload != [] then 1 else 0;
            && t.total == s.stats.total + one
            && t.unknown == s.stats.unknown + (if one == 1 && Detect(c.payload, c.port) == Unknown then 1 else 0)
            && t.encrypted == s.stats.encrypted + (if one == 1 && Detect(c.payload, c.port) == Encrypted then 1 else 0)
  {
  }

  /** The total counts the payloads that are not empty, and those unknown and encrypted are counted apart. */
  lemma {:induction false} CapturesAreCounted(h: seq<Capture>)
    ensures var s := After(h).state.stats;
            && s.total == Nonempty(h)
            && s.unknown == Detected(h, Unknown) && s.encrypted == Detected(h, Encrypted)
  {
    if h != [] {
      CapturesAreCounted(h[..|h| - 1]);
      ObserveDetected(After(h[..|h| - 1]).state, h[|h| - 1]);
    }
  }

  /** How many of the events are of this protocol. */
  function CountOf(events: seq<Event>, p: Protocol): nat {
    if events == [] then 0
    else CountOf(events[..|events| - 1], p) + if events[|events| - 1].protocol == p then 1 else 0
  }

  lemma CountSnoc(events: seq<Event>, e: Event, p: Protocol)
    ensures CountOf(events + [e], p) == CountOf(events, p) + if e.protocol == p then 1 else 0
  {
    assert (events + [e])[..|events|] == events;
  }

  lemma ObserveCounts(s: State, c: Capture, p: Protocol)
    ensures var (t, e) := Observe(s, c);
            var one := if e.Some? && e.value.protocol == p then 1 else 0;
            && (p == PostgreSQL ==> t.stats.pg == s.stats.pg + one)
            && (p == MySQL ==> t.stats.mysql == s.stats.mysql + one)
            && (p == Redis ==> t.stats.redis == s.stats.redis + one)
            && (p == Encrypted ==> t.stats.encrypted == s.stats.encrypted + one)
            && (p == Unknown ==> one == 0)
  {
  }

  /** Each protocol's counter is the number of its events emitted, and there are no others. */
  lemma {:induction false} EventsAreCounted(h: seq<Capture>, p: Protocol)
    ensures var s, n := After(h).state.stats, CountOf(After(h).events, p);
            && (p == PostgreSQL ==> s.pg == n)
            && (p == MySQL ==> s.mysql == n)
            && (p == Redis ==> s.redis == n)
            && (p == Encrypted ==> s.encrypted == n)
            && (p == Unknown ==> n == 0)
  {
    if h != [] {
      var before, c := After(h[..|h| - 1]), h[|h| - 1];
      EventsAreCounted(h[..|h| - 1], p);
      ObserveCounts(before.state, c, p);
      var e := Observe(before.state, c).1;
      match e
      case Some(v) => CountSnoc(before.events, v, p);
      case None => assert before.events + [] == before.events;
    }
  }
}
