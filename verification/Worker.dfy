/** The worker task: two bounded queues, the main loop that serves them one request at a time, the circuit
    breaker and the background probe, interleaved with submissions from any number of other tasks. */
module Worker {
  import opened Wrappers
  import opened Transactions

  const HIGH_DEPTH := 8
  const NORMAL_DEPTH := 24
  const PROBE_INTERVAL_MS := 5000

  datatype Op = ReadProperty | WriteProperty | WhoIsDiscovery | ProbeLiveness
  datatype Prio = PrioLow | PrioNormal | PrioHigh

  /** `id` tells submissions apart; the source has none. */
  datatype Request = Request(id: nat, op: Op, prio: Prio)

  predicate IsHigh(r: Request) {
    r.prio == PrioHigh
  }

  /** Where the task is in its endless loop. */
  datatype Pc = CheckingHigh | WaitingNormal | Serving(req: Request) | AfterWork

  /** The two queues and, as history, what became of every submission. */
  datatype Queues = Queues(
    high: seq<Request>, normal: seq<Request>,
    submitted: seq<Request>, refused: seq<Request>,
    acceptedHigh: seq<Request>, acceptedNormal: seq<Request>,
    started: seq<Request>, completed: seq<Request>)

  /** One PDU (or discovery burst) handed to the network: for whom, and how many waits had expired since
      the last good reply. */
  datatype Send = Send(req: Option<Request>, expired: nat)

  /** Health and clocks, and as history how the waits ended, what was sent and when probes started. */
  datatype Breaker = Breaker(
    health: Health, timeouts: nat, clock: int, lastProbe: int,
    endings: seq<Ending>, sends: seq<Send>, probes: seq<int>)

  datatype State = State(pc: Pc, q: Queues, b: Breaker)

  predicate Init(s: State) {
    && s.pc == CheckingHigh
    && s.q == Queues([], [], [], [], [], [], [], [])
    && s.b == Breaker(Online, 0, s.b.clock, s.b.clock, [], [], [])
  }

  datatype Step =
    | Submit(req: Request)
    | Refuse(req: Request)
    | TakeHigh
    | HighEmpty
    | TakeNormal
    | NormalEmpty
    | Serve(ending: Ending)
    | Idle(now: int, ending: Ending)

  predicate Fresh(q: Queues, req: Request) {
    forall i :: 0 <= i < |q.submitted| ==> q.submitted[i].id != req.id
  }

  /** A full queue refuses; so does a submitter that cannot create its semaphore, at any time. */
  predicate Enabled(s: State, step: Step) {
    match step
    case Submit(req) => Fresh(s.q, req) && if IsHigh(req) then |s.q.high| < HIGH_DEPTH else |s.q.normal| < NORMAL_DEPTH
    case Refuse(req) => Fresh(s.q, req)
    case TakeHigh => s.pc.CheckingHigh? && s.q.high != []
    case HighEmpty => s.pc.CheckingHigh? && s.q.high == []
    case TakeNormal => s.pc.WaitingNormal? && s.q.normal != []
    case NormalEmpty => s.pc.WaitingNormal? && s.q.normal == []
    case Serve(_) => s.pc.Serving?
    case Idle(now, _) => s.pc.AfterWork? && s.b.clock <= now
  }

  function Enqueue(q: Queues, req: Request): Queues {
    var q' := q.(submitted := q.submitted + [req]);
    if IsHigh(req) then q'.(high := q.high + [req], acceptedHigh := q.acceptedHigh + [req])
    else q'.(normal := q.normal + [req], acceptedNormal := q.acceptedNormal + [req])
  }

  function NoteRefusal(q: Queues, req: Request): Queues {
    q.(submitted := q.submitted + [req], refused := q.refused + [req])
  }

  function DequeueHigh(q: Queues): Queues
    requires q.high != []
  {
    q.(high := q.high[1..], started := q.started + [q.high[0]])
  }

  function DequeueNormal(q: Queues): Queues
    requires q.normal != []
  {
    q.(normal := q.normal[1..], started := q.started + [q.normal[0]])
  }

  function NoteCompletion(q: Queues, req: Request): Queues {
    q.(completed := q.completed + [req])
  }

  /** The circuit breaker's test. */
  predicate Blocked(b: Breaker, req: Request) {
    b.health == Offline && !IsHigh(req) && req.op == ReadProperty
  }

  function NoteSend(b: Breaker, req: Option<Request>): Breaker {
    b.(sends := b.sends + [Send(req, ExpiredSinceAnswer(b.endings))])
  }

  /** A transaction for `req`, or a probe of the worker's own, that ends with `e`. */
  function AfterTransaction(b: Breaker, req: Option<Request>, e: Ending): Breaker {
    var b' := if e == NotSent then b else NoteSend(b, req);
    var (h, n) := HealthStep(b.health, b.timeouts, e);
    b'.(health := h, timeouts := n, endings := b.endings + [e])
  }

  function ServeRequest(b: Breaker, req: Request, e: Ending): Breaker {
    if Blocked(b, req) then b
    else if req.op == WhoIsDiscovery then NoteSend(b, Some(req))
    else AfterTransaction(b, Some(req), e)
  }

  predicate ProbeDue(b: Breaker, now: int) {
    b.health != Online && (now - b.lastProbe) / 1000 >= PROBE_INTERVAL_MS
  }

  function EndOfTurn(b: Breaker, now: int, e: Ending): Breaker {
    if ProbeDue(b, now) then
      AfterTransaction(b.(clock := now, lastProbe := now, probes := b.probes + [now]), None, e)
    else b.(clock := now)
  }

  function Apply(s: State, step: Step): State
    requires Enabled(s, step)
  {
    match step
    case Submit(req) => s.(q := Enqueue(s.q, req))
    case Refuse(req) => s.(q := NoteRefusal(s.q, req))
    case TakeHigh => s.(pc := Serving(s.q.high[0]), q := DequeueHigh(s.q))
    case HighEmpty => s.(pc := WaitingNormal)
    case TakeNormal => s.(pc := Serving(s.q.normal[0]), q := DequeueNormal(s.q))
    case NormalEmpty => s.(pc := AfterWork)
    case Serve(e) =>
      State(AfterWork, NoteCompletion(s.q, s.pc.req), ServeRequest(s.b, s.pc.req, e))
    case Idle(now, e) => s.(pc := CheckingHigh, b := EndOfTurn(s.b, now, e))
  }

  ghost predicate Run(s0: State, steps: seq<Step>, s: State)
    decreases |steps|
  {
    if steps == [] then s == s0
    else Enabled(s0, steps[0]) && Run(Apply(s0, steps[0]), steps[1..], s)
  }

  /** The high-priority requests of `rs`, or the others, in order. */
  function Only(high: bool, rs: seq<Request>): (r: seq<Request>) {
    if rs == [] then []
    else Only(high, rs[..|rs| - 1]) + if IsHigh(rs[|rs| - 1]) == high then [rs[|rs| - 1]] else []
  }

  lemma OnlyAppend(high: bool, rs: seq<Request>, r: Request)
    ensures Only(high, rs + [r]) == Only(high, rs) + if IsHigh(r) == high then [r] else []
  {
    assert (rs + [r])[..|rs|] == rs;
  }

  function InService(pc: Pc): seq<Request> {
    if pc.Serving? then [pc.req] else []
  }

  /** How often a request is found, over every place a submitted request can be. */
  function Places(pc: Pc, q: Queues, r: Request): nat {
    Occurrences(q.refused, r) + Occurrences(q.high, r) + Occurrences(q.normal, r) + Occurrences(InService(pc), r)
    + Occurrences(q.completed, r)
  }

  /** Queues are bounded and hold what belongs in them; each queue's accepted requests are the started
      ones followed by the waiting ones; requests complete in the order they start. */
  ghost predicate Ordered(pc: Pc, q: Queues) {
    && |q.high| <= HIGH_DEPTH && |q.normal| <= NORMAL_DEPTH
    && (forall i :: 0 <= i < |q.high| ==> IsHigh(q.high[i]))
    && (forall i :: 0 <= i < |q.normal| ==> !IsHigh(q.normal[i]))
    && q.acceptedHigh == Only(true, q.started) + q.high
    && q.acceptedNormal == Only(false, q.started) + q.normal
    && q.started == q.completed + InService(pc)
  }

  /** Nothing is lost or duplicated. */
  ghost predicate Conserved(pc: Pc, q: Queues) {
    Distinct(q.submitted) && forall r :: Places(pc, q, r) == Occurrences(q.submitted, r)
  }

  ghost predicate QueueInv(pc: Pc, q: Queues) {
    Ordered(pc, q) && Conserved(pc, q)
  }

  ghost predicate Distinct(rs: seq<Request>) {
    forall i, j :: 0 <= i < j < |rs| ==> rs[i].id != rs[j].id
  }

  function Count(b: bool): nat {
    if b then 1 else 0
  }

  function Occurrences(rs: seq<Request>, r: Request): nat {
    if rs == [] then 0 else Occurrences(rs[..|rs| - 1], r) + Count(rs[|rs| - 1] == r)
  }

  lemma CountAppend(rs: seq<Request>, x: Request, r: Request)
    ensures Occurrences(rs + [x], r) == Occurrences(rs, r) + Count(x == r)
  {
    assert (rs + [x])[..|rs|] == rs;
  }

  lemma {:induction false} CountTake(rs: seq<Request>, r: Request)
    requires rs != []
    ensures Occurrences(rs, r) == Occurrences(rs[1..], r) + Count(rs[0] == r)
    decreases |rs|
  {
    if |rs| == 1 {
    } else {
      var last := |rs| - 1;
      CountTake(rs[..last], r);
      assert rs[1..][..last - 1] == rs[..last][1..];
    }
  }

  lemma {:induction false} CountIfPresent(rs: seq<Request>, r: Request)
    ensures r in rs <==> Occurrences(rs, r) > 0
    decreases |rs|
  {
    if rs == [] {
    } else {
      CountIfPresent(rs[..|rs| - 1], r);
      assert rs == rs[..|rs| - 1] + [rs[|rs| - 1]];
    }
  }

  lemma EnqueueKeepsOrder(pc: Pc, q: Queues, req: Request)
    requires Ordered(pc, q)
    requires if IsHigh(req) then |q.high| < HIGH_DEPTH else |q.normal| < NORMAL_DEPTH
    ensures Ordered(pc, Enqueue(q, req))
  {
    hide Only, InService;
    if IsHigh(req) {
      assert (Only(true, q.started) + q.high) + [req] == Only(true, q.started) + (q.high + [req]);
    } else {
      assert (Only(false, q.started) + q.normal) + [req] == Only(false, q.started) + (q.normal + [req]);
    }
  }

  lemma AppendKeepsDistinct(rs: seq<Request>, r: Request)
    requires Distinct(rs) && forall i :: 0 <= i < |rs| ==> rs[i].id != r.id
    ensures Distinct(rs + [r])
  {
  }

  lemma EnqueueCounts(pc: Pc, q: Queues, req: Request, r: Request)
    ensures Places(pc, Enqueue(q, req), r) == Places(pc, q, r) + Count(req == r)
    ensures Occurrences(Enqueue(q, req).submitted, r) == Occurrences(q.submitted, r) + Count(req == r)
  {
    hide InService, Occurrences;
    CountAppend(q.submitted, req, r);
    if IsHigh(req) {
      CountAppend(q.high, req, r);
    } else {
      CountAppend(q.normal, req, r);
    }
  }

  lemma EnqueueConserves(pc: Pc, q: Queues, req: Request)
    requires Conserved(pc, q) && Fresh(q, req)
    ensures Conserved(pc, Enqueue(q, req))
  {
    AppendKeepsDistinct(q.submitted, req);
    hide Distinct, Occurrences, Places;
    forall r ensures Places(pc, Enqueue(q, req), r) == Occurrences(Enqueue(q, req).submitted, r) {
      EnqueueCounts(pc, q, req, r);
    }
  }

  lemma RefusalKeepsQueues(pc: Pc, q: Queues, req: Request)
    requires QueueInv(pc, q) && Fresh(q, req)
    ensures QueueInv(pc, NoteRefusal(q, req))
  {
    AppendKeepsDistinct(q.submitted, req);
    hide Only, InService, Distinct, Occurrences, Places;
    forall r ensures Places(pc, NoteRefusal(q, req), r) == Occurrences(NoteRefusal(q, req).submitted, r) {
      RefusalCounts(pc, q, req, r);
    }
  }

  lemma RefusalCounts(pc: Pc, q: Queues, req: Request, r: Request)
    ensures Places(pc, NoteRefusal(q, req), r) == Places(pc, q, r) + Count(req == r)
    ensures Occurrences(NoteRefusal(q, req).submitted, r) == Occurrences(q.submitted, r) + Count(req == r)
  {
    hide InService, Occurrences;
    CountAppend(q.submitted, req, r);
    CountAppend(q.refused, req, r);
  }

  lemma DequeueHighKeepsOrder(pc: Pc, q: Queues)
    requires Ordered(pc, q) && !pc.Serving? && q.high != []
    ensures Ordered(Serving(q.high[0]), DequeueHigh(q))
  {
    hide Only;
    OnlyAppend(true, q.started, q.high[0]);
    OnlyAppend(false, q.started, q.high[0]);
    assert Only(true, q.started) + q.high == (Only(true, q.started) + [q.high[0]]) + q.high[1..];
  }

  lemma DequeueNormalKeepsOrder(pc: Pc, q: Queues)
    requires Ordered(pc, q) && !pc.Serving? && q.normal != []
    ensures Ordered(Serving(q.normal[0]), DequeueNormal(q))
  {
    hide Only;
    OnlyAppend(true, q.started, q.normal[0]);
    OnlyAppend(false, q.started, q.normal[0]);
    assert Only(false, q.started) + q.normal == (Only(false, q.started) + [q.normal[0]]) + q.normal[1..];
  }

  lemma DequeueCounts(pc: Pc, q: Queues, r: Request)
    requires !pc.Serving?
    ensures q.high != [] ==> Places(Serving(q.high[0]), DequeueHigh(q), r) == Places(pc, q, r)
    ensures q.normal != [] ==> Places(Serving(q.normal[0]), DequeueNormal(q), r) == Places(pc, q, r)
  {
    if q.high != [] {
      CountTake(q.high, r);
      CountTake([q.high[0]], r);
    }
    if q.normal != [] {
      CountTake(q.normal, r);
      CountTake([q.normal[0]], r);
    }
  }

  lemma DequeueConserves(pc: Pc, q: Queues)
    requires Conserved(pc, q) && !pc.Serving?
    ensures q.high != [] ==> Conserved(Serving(q.high[0]), DequeueHigh(q))
    ensures q.normal != [] ==> Conserved(Serving(q.normal[0]), DequeueNormal(q))
  {
    hide Distinct, Occurrences, Places;
    forall r
      ensures q.high != [] ==> Places(Serving(q.high[0]), DequeueHigh(q), r) == Occurrences(q.submitted, r)
      ensures q.normal != [] ==> Places(Serving(q.normal[0]), DequeueNormal(q), r) == Occurrences(q.submitted, r)
    {
      DequeueCounts(pc, q, r);
    }
  }

  lemma CompletionKeepsQueues(q: Queues, req: Request)
    requires QueueInv(Serving(req), q)
    ensures QueueInv(AfterWork, NoteCompletion(q, req))
  {
    hide Distinct, Only;
    forall r ensures Places(AfterWork, NoteCompletion(q, req), r) == Occurrences(q.submitted, r) {
      assert Places(Serving(req), q, r) == Occurrences(q.submitted, r);
      CountAppend(q.completed, req, r);
    }
  }

  lemma StepKeepsQueues(s: State, step: Step)
    requires QueueInv(s.pc, s.q) && Enabled(s, step)
    ensures QueueInv(Apply(s, step).pc, Apply(s, step).q)
  {
    match step {
      case Submit(req) =>
        EnqueueKeepsOrder(s.pc, s.q, req);
        EnqueueConserves(s.pc, s.q, req);
      case Refuse(req) => RefusalKeepsQueues(s.pc, s.q, req);
      case TakeHigh =>
        DequeueHighKeepsOrder(s.pc, s.q);
        DequeueConserves(s.pc, s.q);
      case TakeNormal =>
        DequeueNormalKeepsOrder(s.pc, s.q);
        DequeueConserves(s.pc, s.q);
      case Serve(_) => CompletionKeepsQueues(s.q, s.pc.req);
      case _ =>
    }
  }

  predicate SendAllowed(send: Send) {
    send.req.Some? && send.req.value.op == ReadProperty && !IsHigh(send.req.value)
    ==> send.expired < OFFLINE_CONSECUTIVE_TIMEOUTS
  }

  /** How long after the previous probe, or after the task became ready, probe `i` starts. */
  function ProbeGap(probes: seq<int>, i: nat, boot: int): int
    requires i < |probes|
  {
    probes[i] - if i == 0 then boot else probes[i - 1]
  }

  /** Probes are spaced, and the health is the one the waits so far call for. */
  ghost predicate BreakerInv(b: Breaker, boot: int) {
    && b.lastProbe == (if b.probes == [] then boot else b.probes[|b.probes| - 1])
    && b.lastProbe <= b.clock
    && (forall i :: 0 <= i < |b.probes| ==> ProbeGap(b.probes, i, boot) >= 5_000_000)
    && (b.health, b.timeouts) == HealthAfter(b.endings)
    && (forall i :: 0 <= i < |b.sends| ==> SendAllowed(b.sends[i]))
  }

  lemma SendKeepsBreaker(b: Breaker, req: Option<Request>, boot: int)
    requires BreakerInv(b, boot)
    requires req.Some? ==> !Blocked(b, req.value)
    ensures BreakerInv(NoteSend(b, req), boot)
  {
    HealthCountsExpiries(b.endings);
    hide HealthAfter, ExpiredSinceAnswer;
  }

  lemma TransactionKeepsBreaker(b: Breaker, req: Option<Request>, e: Ending, boot: int)
    requires BreakerInv(b, boot)
    requires req.Some? ==> !Blocked(b, req.value)
    ensures BreakerInv(AfterTransaction(b, req, e), boot)
  {
    hide HealthAfter, HealthStep, ExpiredSinceAnswer, SendAllowed;
    SendKeepsBreaker(b, req, boot);
    HealthAfterAppend(b.endings, e);
  }

  lemma StepKeepsBreaker(s: State, step: Step, boot: int)
    requires BreakerInv(s.b, boot) && Enabled(s, step)
    ensures BreakerInv(Apply(s, step).b, boot)
  {
    hide AfterTransaction, NoteSend, HealthAfter, SendAllowed;
    match step {
      case Serve(e) =>
        if !Blocked(s.b, s.pc.req) {
          SendKeepsBreaker(s.b, Some(s.pc.req), boot);
          TransactionKeepsBreaker(s.b, Some(s.pc.req), e, boot);
        }
      case Idle(now, e) =>
        if ProbeDue(s.b, now) {
          var probes := s.b.probes + [now];
          assert forall i :: 0 <= i < |s.b.probes| ==> ProbeGap(probes, i, boot) == ProbeGap(s.b.probes, i, boot);
          TransactionKeepsBreaker(s.b.(clock := now, lastProbe := now, probes := probes), None, e, boot);
        }
      case _ =>
    }
  }

  ghost predicate Inv(s: State, boot: int) {
    QueueInv(s.pc, s.q) && BreakerInv(s.b, boot)
  }

  lemma {:induction false} RunKeepsInv(s0: State, steps: seq<Step>, s: State, boot: int)
    requires Inv(s0, boot) && Run(s0, steps, s)
    ensures Inv(s, boot)
    decreases |steps|
  {
    hide Enabled, Apply, QueueInv, BreakerInv;
    if steps == [] {
    } else {
      StepKeepsQueues(s0, steps[0]);
      StepKeepsBreaker(s0, steps[0], boot);
      RunKeepsInv(Apply(s0, steps[0]), steps[1..], s, boot);
    }
  }

  lemma InitEstablishesInv(s: State)
    requires Init(s)
    ensures Inv(s, s.b.clock)
  {
  }

  /** In every reachable state each submitted request is in exactly one place: refused, waiting in one of
      the queues, in service or completed, and there exactly once. So an accepted one completes at most
      once, and is never lost. */
  lemma EachRequestInExactlyOnePlace(s0: State, steps: seq<Step>, s: State, req: Request)
    requires Init(s0) && Run(s0, steps, s)
    ensures if req in s.q.submitted then Places(s.pc, s.q, req) == 1 else Places(s.pc, s.q, req) == 0
    ensures |s.q.high| <= 8 && |s.q.normal| <= 24
    ensures req in s.q.submitted ==>
              Count(req in s.q.refused) + Count(req in s.q.high) + Count(req in s.q.normal)
              + Count(req in InService(s.pc)) + Count(req in s.q.completed) == 1
  {
    InitEstablishesInv(s0);
    RunKeepsInv(s0, steps, s, s0.b.clock);
    hide Occurrences, Distinct;
    DistinctMeansOnce(s.q.submitted, req);
    assert Places(s.pc, s.q, req) == Occurrences(s.q.submitted, req);
    CountIfPresent(s.q.refused, req);
    CountIfPresent(s.q.high, req);
    CountIfPresent(s.q.normal, req);
    CountIfPresent(InService(s.pc), req);
    CountIfPresent(s.q.completed, req);
  }

  lemma {:induction false} DistinctMeansOnce(rs: seq<Request>, r: Request)
    requires Distinct(rs)
    ensures Occurrences(rs, r) == Count(r in rs)
    decreases |rs|
  {
    if rs == [] {
    } else {
      var front := rs[..|rs| - 1];
      assert rs == front + [rs[|rs| - 1]];
      DistinctMeansOnce(front, r);
    }
  }

  /** First in, first out: the requests each queue accepted are the completed ones, the one in service if
      it came from that queue, and the waiting ones, in that order. */
  lemma QueuesAreFifo(s0: State, steps: seq<Step>, s: State)
    requires Init(s0) && Run(s0, steps, s)
    ensures s.q.acceptedHigh == Only(true, s.q.completed + InService(s.pc)) + s.q.high
    ensures s.q.acceptedNormal == Only(false, s.q.completed + InService(s.pc)) + s.q.normal
  {
    InitEstablishesInv(s0);
    RunKeepsInv(s0, steps, s, s0.b.clock);
  }

  /** How many more normal-priority requests can start before the worker looks at the high queue again. */
  function Overtakers(pc: Pc): nat {
    if pc.WaitingNormal? then 1 else 0
  }

  /** Once started, a request is never waiting again. */
  lemma WaitingMeansNotStarted(s: State, h: Request)
    requires QueueInv(s.pc, s.q) && (h in s.q.high || h in s.q.normal)
    ensures h !in s.q.started
  {
    DistinctMeansOnce(s.q.submitted, h);
    hide Occurrences, Distinct, Only;
    assert Places(s.pc, s.q, h) == Occurrences(s.q.submitted, h);
    CountIfPresent(s.q.high, h);
    CountIfPresent(s.q.normal, h);
    CountIfPresent(s.q.completed, h);
    CountIfPresent(InService(s.pc), h);
  }

  lemma {:induction false} StartedStaysStarted(s0: State, steps: seq<Step>, s: State, h: Request)
    requires Run(s0, steps, s) && h in s0.q.started
    ensures h in s.q.started
    decreases |steps|
  {
    if steps == [] {
    } else {
      StartedStaysStarted(Apply(s0, steps[0]), steps[1..], s, h);
    }
  }

  lemma StepOnOvertakers(s: State, step: Step, h: Request)
    requires QueueInv(s.pc, s.q) && Enabled(s, step) && h in s.q.high
    ensures var s' := Apply(s, step);
      && (h in s'.q.high || h in s'.q.started)
      && |Only(false, s'.q.started)| + Overtakers(s'.pc) <= |Only(false, s.q.started)| + Overtakers(s.pc)
  {
    hide EndOfTurn, ServeRequest;
    if step.TakeHigh? {
      OnlyAppend(false, s.q.started, s.q.high[0]);
    } else if step.TakeNormal? {
      OnlyAppend(false, s.q.started, s.q.normal[0]);
    }
  }

  /** Bounded overtaking: while a high-priority request waits, at most one normal-priority request starts
      service, and none at all unless the worker was already blocked on the normal queue. */
  lemma {:induction false} BoundedOvertaking(s0: State, steps: seq<Step>, s: State, h: Request)
    requires QueueInv(s0.pc, s0.q) && Run(s0, steps, s)
    requires h in s0.q.high && h in s.q.high
    ensures |Only(false, s.q.started)| <= |Only(false, s0.q.started)| + Overtakers(s0.pc)
    ensures Overtakers(s0.pc) == if s0.pc == WaitingNormal then 1 else 0
    decreases |steps|
  {
    hide Only, Enabled;
    if steps == [] {
    } else {
      var s1 := Apply(s0, steps[0]);
      StepKeepsQueues(s0, steps[0]);
      StepOnOvertakers(s0, steps[0], h);
      if h !in s1.q.high {
        StartedStaysStarted(s1, steps[1..], s, h);
        RunKeepsQueues(s1, steps[1..], s);
        WaitingMeansNotStarted(s, h);
      }
      BoundedOvertaking(s1, steps[1..], s, h);
    }
  }

  /** Steps of the worker itself, as opposed to submissions. */
  function WorkerSteps(steps: seq<Step>): nat {
    if steps == [] then 0
    else (if steps[0].Submit? || steps[0].Refuse? then 0 else 1) + WorkerSteps(steps[1..])
  }

  /** How many worker steps a request at position `at` of the high queue may still have to wait. */
  function Patience(pc: Pc, at: nat): nat {
    3 * at + match pc
      case WaitingNormal => 3
      case Serving(_) => 2
      case AfterWork => 1
      case CheckingHigh => 0
  }

  lemma StepOnPatience(s: State, step: Step, h: Request, at: nat) returns (at': nat)
    requires QueueInv(s.pc, s.q) && Enabled(s, step) && at < |s.q.high| && s.q.high[at] == h
    ensures var s' := Apply(s, step);
      if h in s'.q.high then
        && at' < |s'.q.high| && s'.q.high[at'] == h
        && Patience(s'.pc, at') + WorkerSteps([step]) <= Patience(s.pc, at)
      else h in s'.q.started && s'.pc == Serving(h)
  {
    hide EndOfTurn, ServeRequest, QueueInv;
    at' := at;
    if step.TakeHigh? && at > 0 {
      at' := at - 1;
    }
    if step.TakeHigh? && at == 0 {
      assert h in Apply(s, step).q.started;
      StepKeepsQueues(s, step);
      if h in Apply(s, step).q.high {
        WaitingMeansNotStarted(Apply(s, step), h);
      }
    }
  }

  /** A waiting high-priority request is served soon: however submissions interleave, it waits for at most
      24 steps of the worker, whatever is queued before it or at normal priority. */
  lemma HighPriorityIsServedSoon(s0: State, steps: seq<Step>, s: State, h: Request)
    requires QueueInv(s0.pc, s0.q) && Run(s0, steps, s)
    requires h in s0.q.high && h in s.q.high
    ensures WorkerSteps(steps) <= 24
  {
    var at :| 0 <= at < |s0.q.high| && s0.q.high[at] == h;
    PatienceRunsOut(s0, steps, s, h, at);
  }

  lemma {:induction false} PatienceRunsOut(s0: State, steps: seq<Step>, s: State, h: Request, at: nat)
    requires QueueInv(s0.pc, s0.q) && Run(s0, steps, s)
    requires at < |s0.q.high| && s0.q.high[at] == h && h in s.q.high
    ensures WorkerSteps(steps) <= Patience(s0.pc, at)
    decreases |steps|
  {
    hide Enabled, Apply, QueueInv, Patience;
    if steps == [] {
    } else {
      var s1 := Apply(s0, steps[0]);
      StepKeepsQueues(s0, steps[0]);
      var at' := StepOnPatience(s0, steps[0], h, at);
      if h !in s1.q.high {
        StartedStaysStarted(s1, steps[1..], s, h);
        RunKeepsQueues(s1, steps[1..], s);
        WaitingMeansNotStarted(s, h);
      }
      PatienceRunsOut(s1, steps[1..], s, h, at');
      assert WorkerSteps([steps[0]]) + WorkerSteps(steps[1..]) == WorkerSteps(steps);
    }
  }

  lemma {:induction false} CompletedStaysCompleted(s0: State, steps: seq<Step>, s: State, r: Request)
    requires Run(s0, steps, s) && r in s0.q.completed
    ensures r in s.q.completed
    decreases |steps|
  {
    if steps == [] {
    } else {
      CompletedStaysCompleted(Apply(s0, steps[0]), steps[1..], s, r);
    }
  }

  /** A request in service is completed by the worker's next step, whatever is submitted meanwhile. */
  lemma {:induction false} StartedCompletesNext(s0: State, steps: seq<Step>, s: State, r: Request)
    requires Run(s0, steps, s) && s0.pc == Serving(r)
    ensures WorkerSteps(steps) > 0 ==> r in s.q.completed
    ensures WorkerSteps(steps) == 0 ==> s.pc == Serving(r)
    decreases |steps|
  {
    if steps == [] {
    } else {
      hide EndOfTurn, ServeRequest;
      var s1 := Apply(s0, steps[0]);
      if steps[0].Serve? {
        CompletedStaysCompleted(s1, steps[1..], s, r);
      } else {
        StartedCompletesNext(s1, steps[1..], s, r);
      }
    }
  }

  /** An accepted high-priority request is completed within 26 steps of the worker. */
  lemma HighPriorityCompletes(s0: State, steps: seq<Step>, s: State, h: Request)
    requires QueueInv(s0.pc, s0.q) && Run(s0, steps, s) && h in s0.q.high
    ensures WorkerSteps(steps) >= 26 ==> h in s.q.completed
  {
    var at :| 0 <= at < |s0.q.high| && s0.q.high[at] == h;
    HighCompletesInTime(s0, steps, s, h, at);
  }

  lemma {:induction false} HighCompletesInTime(s0: State, steps: seq<Step>, s: State, h: Request, at: nat)
    requires QueueInv(s0.pc, s0.q) && Run(s0, steps, s) && at < |s0.q.high| && s0.q.high[at] == h
    ensures WorkerSteps(steps) <= Patience(s0.pc, at) + 1 || h in s.q.completed
    decreases |steps|
  {
    hide Enabled, Apply, QueueInv, Patience;
    if steps == [] {
    } else {
      var s1 := Apply(s0, steps[0]);
      StepKeepsQueues(s0, steps[0]);
      var at' := StepOnPatience(s0, steps[0], h, at);
      if h in s1.q.high {
        HighCompletesInTime(s1, steps[1..], s, h, at');
      } else {
        StartedCompletesNext(s1, steps[1..], s, h);
      }
      assert WorkerSteps([steps[0]]) + WorkerSteps(steps[1..]) == WorkerSteps(steps);
    }
  }

  /** How often a high-priority request starts. */
  function HighTaken(steps: seq<Step>): nat {
    if steps == [] then 0 else (if steps[0].TakeHigh? then 1 else 0) + HighTaken(steps[1..])
  }

  /** How many worker steps a request at position `at` of the normal queue may still have to wait while no
      high-priority request starts. */
  function NormalPatience(pc: Pc, at: nat): nat {
    4 * at + match pc
      case Serving(_) => 3
      case AfterWork => 2
      case CheckingHigh => 1
      case WaitingNormal => 0
  }

  lemma StepOnNormalPatience(s: State, step: Step, r: Request, at: nat) returns (at': nat)
    requires QueueInv(s.pc, s.q) && Enabled(s, step) && at < |s.q.normal| && s.q.normal[at] == r
    ensures var s' := Apply(s, step);
      if r in s'.q.normal then
        && at' < |s'.q.normal| && s'.q.normal[at'] == r
        && NormalPatience(s'.pc, at') + WorkerSteps([step]) <= NormalPatience(s.pc, at) + 3 * HighTaken([step])
      else s'.pc == Serving(r)
  {
    hide EndOfTurn, ServeRequest, QueueInv;
    at' := at;
    if step.TakeNormal? && at > 0 {
      at' := at - 1;
    }
    if step.TakeNormal? && at == 0 {
      assert r in Apply(s, step).q.started;
      StepKeepsQueues(s, step);
      if r in Apply(s, step).q.normal {
        WaitingMeansNotStarted(Apply(s, step), r);
      }
    }
  }

  lemma NormalPatienceAtMost(pc: Pc, at: nat)
    ensures NormalPatience(pc, at) <= 4 * at + 3
  {
  }

  /** Every accepted normal-priority request is completed as well, with four worker steps for each one before it
      and three more for each high-priority request that starts meanwhile. */
  lemma {:induction false} NormalPriorityCompletes(s0: State, steps: seq<Step>, s: State, r: Request, at: nat)
    requires QueueInv(s0.pc, s0.q) && Run(s0, steps, s) && at < |s0.q.normal| && s0.q.normal[at] == r
    ensures WorkerSteps(steps) <= NormalPatience(s0.pc, at) + 1 + 3 * HighTaken(steps) || r in s.q.completed
    ensures WorkerSteps(steps) > 4 * at + 4 + 3 * HighTaken(steps) ==> r in s.q.completed
    decreases |steps|
  {
    hide Enabled, Apply, QueueInv, NormalPatience;
    NormalPatienceAtMost(s0.pc, at);
    if steps == [] {
    } else {
      var s1 := Apply(s0, steps[0]);
      StepKeepsQueues(s0, steps[0]);
      var at' := StepOnNormalPatience(s0, steps[0], r, at);
      if r in s1.q.normal {
        NormalPriorityCompletes(s1, steps[1..], s, r, at');
      } else {
        StartedCompletesNext(s1, steps[1..], s, r);
      }
      assert WorkerSteps([steps[0]]) + WorkerSteps(steps[1..]) == WorkerSteps(steps);
      assert HighTaken([steps[0]]) + HighTaken(steps[1..]) == HighTaken(steps);
    }
  }

  /** The same for one that still waits at the end. */
  lemma {:induction false} NormalPriorityWaits(s0: State, steps: seq<Step>, s: State, r: Request, at: nat)
    requires QueueInv(s0.pc, s0.q) && Run(s0, steps, s) && at < |s0.q.normal| && s0.q.normal[at] == r
    requires r in s.q.normal
    ensures WorkerSteps(steps) <= NormalPatience(s0.pc, at) + 3 * HighTaken(steps)
    decreases |steps|
  {
    hide Enabled, Apply, QueueInv, NormalPatience;
    if steps == [] {
    } else {
      var s1 := Apply(s0, steps[0]);
      StepKeepsQueues(s0, steps[0]);
      var at' := StepOnNormalPatience(s0, steps[0], r, at);
      if r !in s1.q.normal {
        assert r in s1.q.started by {
          ServingIsStarted(s1, r);
        }
        StartedStaysStarted(s1, steps[1..], s, r);
        RunKeepsQueues(s1, steps[1..], s);
        WaitingMeansNotStarted(s, r);
      }
      NormalPriorityWaits(s1, steps[1..], s, r, at');
      assert WorkerSteps([steps[0]]) + WorkerSteps(steps[1..]) == WorkerSteps(steps);
      assert HighTaken([steps[0]]) + HighTaken(steps[1..]) == HighTaken(steps);
    }
  }

  lemma ServingIsStarted(s: State, r: Request)
    requires QueueInv(s.pc, s.q) && s.pc == Serving(r)
    ensures r in s.q.started
  {
    hide Only;
    assert s.q.started == s.q.completed + [r];
    assert s.q.started[|s.q.completed|] == r;
  }

  /** The worker is about to look at an empty high queue while `r` waits, and every identity from `next` on is
      unused. */
  predicate Hungry(s: State, r: Request, next: nat) {
    && s.pc == CheckingHigh && s.q.high == [] && s.q.normal == [r] && s.b.health == Online
    && forall i :: 0 <= i < |s.q.submitted| ==> s.q.submitted[i].id < next
  }

  /** One more high-priority request, submitted just in time, is served first. */
  lemma Overtake(s: State, r: Request, next: nat) returns (steps: seq<Step>, s': State)
    requires Hungry(s, r, next)
    ensures Run(s, steps, s') && Hungry(s', r, next + 1) && WorkerSteps(steps) == 3
  {
    hide Run;
    var h := Request(next, WriteProperty, PrioHigh);
    var s1 := Apply(s, Submit(h));
    var s2 := Apply(s1, TakeHigh);
    var s3 := Apply(s2, Serve(Answered));
    s' := Apply(s3, Idle(s3.b.clock, Answered));
    NoSteps(s');
    steps := Prepend(s3, Idle(s3.b.clock, Answered), [], s');
    steps := Prepend(s2, Serve(Answered), steps, s');
    steps := Prepend(s1, TakeHigh, steps, s');
    steps := Prepend(s, Submit(h), steps, s');
  }

  lemma NoSteps(s: State)
    ensures Run(s, [], s)
  {
  }

  lemma Prepend(s0: State, step: Step, steps: seq<Step>, s: State) returns (all: seq<Step>)
    requires Enabled(s0, step) && Run(Apply(s0, step), steps, s)
    ensures all == [step] + steps && Run(s0, all, s)
    ensures WorkerSteps(all) == WorkerSteps([step]) + WorkerSteps(steps)
  {
    all := [step] + steps;
    assert all[1..] == steps;
  }

  lemma {:induction false} RunConcat(s0: State, a: seq<Step>, s1: State, b: seq<Step>, s: State)
    requires Run(s0, a, s1) && Run(s1, b, s)
    ensures Run(s0, a + b, s) && WorkerSteps(a + b) == WorkerSteps(a) + WorkerSteps(b)
    decreases |a|
  {
    hide Apply, Enabled;
    if a == [] {
      assert a + b == b;
    } else {
      assert (a + b)[1..] == a[1..] + b;
      RunConcat(Apply(s0, a[0]), a[1..], s1, b, s);
    }
  }

  /** Without a bound on the high-priority requests there is none on the waiting: for every number of rounds a run
      exists that begins with the submission of a normal-priority request, and through which it waits at the head of
      its queue. */
  lemma {:induction false} NormalPriorityCanStarve(s0: State, rounds: nat)
    returns (steps: seq<Step>, s: State, r: Request)
    requires Init(s0)
    ensures steps != [] && steps[0] == Submit(r)
    ensures Run(s0, steps, s) && Hungry(s, r, rounds + 1) && WorkerSteps(steps) == 3 * rounds
  {
    hide Run, WorkerSteps, Hungry;
    if rounds == 0 {
      r := Request(0, ReadProperty, PrioNormal);
      s := Apply(s0, Submit(r));
      steps := [Submit(r)];
      FirstStarves(s0, r);
    } else {
      var before, s1, r1 := NormalPriorityCanStarve(s0, rounds - 1);
      r := r1;
      var round;
      round, s := Overtake(s1, r, rounds);
      RunConcat(s0, before, s1, round, s);
      steps := before + round;
    }
  }

  lemma FirstStarves(s0: State, r: Request)
    requires Init(s0) && r == Request(0, ReadProperty, PrioNormal)
    ensures Run(s0, [Submit(r)], Apply(s0, Submit(r))) && Hungry(Apply(s0, Submit(r)), r, 1)
    ensures WorkerSteps([Submit(r)]) == 0
  {
    assert [Submit(r)][1..] == [];
  }

  lemma {:induction false} RunKeepsQueues(s0: State, steps: seq<Step>, s: State)
    requires QueueInv(s0.pc, s0.q) && Run(s0, steps, s)
    ensures QueueInv(s.pc, s.q)
    decreases |steps|
  {
    hide Enabled, Apply, QueueInv;
    if steps == [] {
    } else {
      StepKeepsQueues(s0, steps[0]);
      RunKeepsQueues(Apply(s0, steps[0]), steps[1..], s);
    }
  }

  /** The circuit breaker over whole runs: health says exactly how many waits have expired since the last
      good reply; no read below high priority sends a PDU once three have; and background probes start at
      least five seconds apart, the first at least five seconds after the task became ready. */
  lemma CircuitBreaker(s0: State, steps: seq<Step>, s: State)
    requires Init(s0) && Run(s0, steps, s)
    ensures var k := ExpiredSinceAnswer(s.b.endings);
      s.b.health == if k == 0 then Online else if k <= 2 then Degraded else Offline
    ensures forall send <- s.b.sends :: send.expired >= 3 && send.req.Some? && send.req.value.op == ReadProperty ==>
                                          send.req.value.prio == PrioHigh
    ensures forall i :: 0 <= i < |s.b.probes| ==> ProbeGap(s.b.probes, i, s0.b.clock) >= 5_000_000
  {
    InitEstablishesInv(s0);
    RunKeepsInv(s0, steps, s, s0.b.clock);
    HealthCountsExpiries(s.b.endings);
  }

  /** Exactly what serving a request does, in every reachable state: it is completed, and it sends unless it is a read
      below high priority while three waits or more have expired since the last good reply, or its send fails. How it
      ends counts for the health, so an answer brings an OFFLINE target back ONLINE. */
  lemma ServedRequestSendsExactly(s0: State, steps: seq<Step>, s: State, e: Ending)
    requires Init(s0) && Run(s0, steps, s) && s.pc.Serving?
    ensures
      var req, k, s' := s.pc.req, ExpiredSinceAnswer(s.b.endings), Apply(s, Serve(e));
      var stopped := req.op == ReadProperty && req.prio != PrioHigh && k >= 3;
      && s'.pc == AfterWork && s'.q.completed == s.q.completed + [req]
      && s'.b.sends == s.b.sends + (
           if !stopped && (req.op == WhoIsDiscovery || e != NotSent) then [Send(Some(req), k)] else [])
      && s'.b.endings == s.b.endings + (if stopped || req.op == WhoIsDiscovery then [] else [e])
      && s'.b.probes == s.b.probes
      && (!stopped && req.op != WhoIsDiscovery && e == Answered ==> s'.b.health == Online)
  {
    CircuitBreaker(s0, steps, s);
    hide ExpiredSinceAnswer, Run, Init;
  }

  /** Exactly when the worker probes of its own accord: at the end of a turn, when a wait has expired since the last
      good reply and five seconds have passed since the last probe or since the task became ready. */
  lemma ProbesExactly(s0: State, steps: seq<Step>, s: State, now: int, e: Ending)
    requires Init(s0) && Run(s0, steps, s) && s.pc.AfterWork? && s.b.clock <= now
    ensures
      var k, s' := ExpiredSinceAnswer(s.b.endings), Apply(s, Idle(now, e));
      var last := if s.b.probes == [] then s0.b.clock else s.b.probes[|s.b.probes| - 1];
      var due := k != 0 && now - last >= 5_000_000;
      && s'.pc == CheckingHigh && s'.q == s.q && s'.b.clock == now
      && s'.b.probes == s.b.probes + (if due then [now] else [])
      && s'.b.endings == s.b.endings + (if due then [e] else [])
      && s'.b.sends == s.b.sends + (if due && e != NotSent then [Send(None, k)] else [])
  {
    InitEstablishesInv(s0);
    RunKeepsInv(s0, steps, s, s0.b.clock);
    CircuitBreaker(s0, steps, s);
    hide ExpiredSinceAnswer, Run, Init, QueueInv;
  }

  /** Exactly which submissions are taken, and where they go. */
  lemma SubmissionsExactly(s: State, req: Request)
    ensures Enabled(s, Submit(req)) <==>
            && (forall r <- s.q.submitted :: r.id != req.id)
            && if req.prio == PrioHigh then |s.q.high| < 8 else |s.q.normal| < 24
    ensures Enabled(s, Submit(req)) ==>
              var s' := Apply(s, Submit(req));
              && s'.q.submitted == s.q.submitted + [req] && s'.q.refused == s.q.refused
              && s'.q.high == s.q.high + (if req.prio == PrioHigh then [req] else [])
              && s'.q.normal == s.q.normal + (if req.prio == PrioHigh then [] else [req])
              && s'.pc == s.pc && s'.b == s.b
    ensures Enabled(s, Refuse(req)) ==>
              var s' := Apply(s, Refuse(req));
              && s'.q.submitted == s.q.submitted + [req] && s'.q.refused == s.q.refused + [req]
              && s'.q.high == s.q.high && s'.q.normal == s.q.normal && s'.pc == s.pc && s'.b == s.b
  {
  }

  /** What the worker turns to next: the head of the high queue, and the head of the normal one only after it has
      found the high queue empty. */
  lemma NextIsTheHead(s: State, step: Step)
    requires Enabled(s, step) && !s.pc.Serving? && Apply(s, step).pc.Serving?
    ensures var s' := Apply(s, step);
      || (s.pc == CheckingHigh && s.q.high != [] && s'.pc == Serving(s.q.high[0]) && s'.q.high == s.q.high[1..])
      || (s.pc == WaitingNormal && s.q.normal != [] && s'.pc == Serving(s.q.normal[0])
          && s'.q.normal == s.q.normal[1..])
    ensures Apply(s, step).b == s.b
  {
  }
}
