/** The firmware upload hand-off: the HTTP task streams a request body through a queue of depth two to
    the flash worker, which owns every flash call and decides whether to switch the boot partition.
    The two tasks are modelled as a step relation under arbitrary interleaving; each step is one
    statement of one task that touches state the other task, or the flash, can see. */
module Ota {
  import opened Octets

  const CHUNK_BYTES := 512
  const QUEUE_DEPTH := 2

  /** `ota_chunk_t`: a non-final chunk carries data, the final one carries only the abort flag. */
  datatype Chunk = Chunk(data: seq<Octet>, final: bool, abort: bool)

  /** `esp_err_t`, reduced to what the code compares it with. */
  datatype Status = Ok | EspFail | NotFound | Other(code: int)

  /** Where the HTTP task is in `api_ota_post_handler`. */
  datatype HttpPc =
    | Receiving
    | Sending(chunk: Chunk)
    | SendingFinal
    | Waiting
    | Collecting
    | Replied(success: bool)

  /** Where the flash worker is in `ota_flash_worker`. */
  datatype FlashPc =
    | Beginning
    | Polling
    | Handling(chunk: Chunk)
    | Deciding
    | Switching
    | Publishing
    | Giving
    | Gone

  /** `written` and `switched` are what the flash saw; `result`, `finished` and `queue` live in the
      session, which exists until `freed`. */
  datatype State = State(
    body: seq<Octet>,
    http: HttpPc, remaining: nat, receiveFailed: bool,
    flash: FlashPc, begun: bool, failed: bool, err: Status,
    queue: seq<Chunk>, result: Status, finished: bool, freed: bool,
    written: seq<Octet>, switched: bool)

  /** Every label is one atomic action together with what the environment chose for it. */
  datatype HttpStep =
    | ReceiveBytes(count: nat)
    | ReceiveTimeout
    | ReceiveError
    | SendChunk
    | SendChunkTimeout
    | EndOfBody
    | SendFinal
    | TakeFinished
    | CollectAndFree

  datatype FlashStep =
    | Begin(partitionFound: bool, beginStatus: Status)
    | TakeChunk
    | HandleChunk(writeOk: bool)
    | AbortImage
    | SkipImage
    | EndImage(endStatus: Status)
    | SwitchBoot(switchStatus: Status)
    | Publish
    | Give

  datatype Step = Http(http: HttpStep) | Flash(flash: FlashStep)

  predicate Init(s: State) {
    && 0 < |s.body|
    && s == State(s.body, Receiving, |s.body|, false, Beginning, false, false, Ok,
                  [], Ok, false, false, [], false)
  }

  function Received(s: State): nat
    requires s.remaining <= |s.body|
  {
    |s.body| - s.remaining
  }

  predicate HttpEnabled(s: State, step: HttpStep) {
    match step
    case ReceiveBytes(n) => s.http.Receiving? && 0 < n <= s.remaining <= |s.body| && n <= CHUNK_BYTES
    case ReceiveTimeout => s.http.Receiving? && 0 < s.remaining
    case ReceiveError => s.http.Receiving? && 0 < s.remaining
    case SendChunk => s.http.Sending? && |s.queue| < QUEUE_DEPTH && |s.http.chunk.data| <= s.remaining
    case SendChunkTimeout => s.http.Sending? && |s.queue| == QUEUE_DEPTH
    case EndOfBody => s.http.Receiving? && s.remaining == 0
    case SendFinal => s.http.SendingFinal? && |s.queue| < QUEUE_DEPTH
    case TakeFinished => s.http.Waiting? && s.finished
    case CollectAndFree => s.http.Collecting?
  }

  /** `api_ota_post_handler` from the receive loop on. */
  function HttpApply(s: State, step: HttpStep): State
    requires HttpEnabled(s, step)
  {
    match step
    case ReceiveBytes(n) => s.(http := Sending(Chunk(s.body[Received(s)..Received(s) + n], false, false)))
    case ReceiveTimeout => s
    case ReceiveError => s.(receiveFailed := true, http := SendingFinal)
    case SendChunk =>
      s.(queue := s.queue + [s.http.chunk], remaining := s.remaining - |s.http.chunk.data|, http := Receiving)
    case SendChunkTimeout => s.(receiveFailed := true, http := SendingFinal)
    case EndOfBody => s.(http := SendingFinal)
    case SendFinal => s.(queue := s.queue + [FinalChunk(s)], http := Waiting)
    case TakeFinished => s.(finished := false, http := Collecting)
    case CollectAndFree => s.(freed := true, http := Replied(!s.receiveFailed && s.result == Ok))
  }

  function FinalChunk(s: State): Chunk {
    Chunk([], true, s.receiveFailed)
  }

  predicate FlashEnabled(s: State, step: FlashStep) {
    match step
    case Begin(_, _) => s.flash.Beginning?
    case TakeChunk => s.flash.Polling? && s.queue != []
    case HandleChunk(_) => s.flash.Handling?
    case AbortImage => s.flash.Deciding? && s.begun && s.failed
    case SkipImage => s.flash.Deciding? && !s.begun
    case EndImage(_) => s.flash.Deciding? && s.begun && !s.failed
    case SwitchBoot(_) => s.flash.Switching?
    case Publish => s.flash.Publishing?
    case Give => s.flash.Giving?
  }

  /** `ota_flash_worker`. */
  function FlashApply(s: State, step: FlashStep): State
    requires FlashEnabled(s, step)
  {
    match step
    case Begin(found, status) =>
      var err := if found then status else NotFound;
      s.(flash := Polling, err := err, begun := err == Ok, failed := err != Ok)
    case TakeChunk => s.(flash := Handling(s.queue[0]), queue := s.queue[1..])
    case HandleChunk(writeOk) =>
      var c := s.flash.chunk;
      var writes := !c.abort && !c.final && !s.failed;
      s.(failed := s.failed || c.abort || (writes && !writeOk),
         written := if writes && writeOk then s.written + c.data else s.written,
         flash := if c.final then Deciding else Polling)
    case AbortImage => s.(flash := Publishing)
    case SkipImage => s.(flash := Publishing)
    case EndImage(status) => s.(err := status, flash := if status == Ok then Switching else Publishing)
    case SwitchBoot(status) => s.(err := status, switched := status == Ok, flash := Publishing)
    case Publish => s.(result := if s.failed then EspFail else s.err, flash := Giving)
    case Give => s.(finished := true, flash := Gone)
  }

  predicate Enabled(s: State, step: Step) {
    match step
    case Http(h) => HttpEnabled(s, h)
    case Flash(f) => FlashEnabled(s, f)
  }

  function Apply(s: State, step: Step): State
    requires Enabled(s, step)
  {
    match step
    case Http(h) => HttpApply(s, h)
    case Flash(f) => FlashApply(s, f)
  }

  /** `s` is reached from `s0` by the given interleaving. */
  ghost predicate Run(s0: State, steps: seq<Step>, s: State)
    decreases |steps|
  {
    if steps == [] then s == s0
    else Enabled(s0, steps[0]) && Run(Apply(s0, steps[0]), steps[1..], s)
  }

  function Flatten(chunks: seq<Chunk>): (bytes: seq<Octet>) {
    if chunks == [] then [] else chunks[0].data + Flatten(chunks[1..])
  }

  lemma {:induction false} FlattenAppend(chunks: seq<Chunk>, c: Chunk)
    ensures Flatten(chunks + [c]) == Flatten(chunks) + c.data
  {
    if chunks == [] {
      assert chunks + [c] == [c];
      assert Flatten([c]) == c.data + Flatten([]);
    } else {
      assert (chunks + [c])[1..] == chunks[1..] + [c];
      FlattenAppend(chunks[1..], c);
    }
  }

  /** Chunks on their way from the HTTP task to the flash, oldest first. */
  function InFlight(s: State): seq<Chunk> {
    if s.flash.Handling? then [s.flash.chunk] + s.queue else s.queue
  }

  predicate FlashDone(s: State) {
    s.flash.Deciding? || s.flash.Switching? || s.flash.Publishing? || s.flash.Giving? || s.flash.Gone?
  }

  predicate HttpDone(s: State) {
    s.http.Waiting? || s.http.Collecting? || s.http.Replied?
  }

  predicate ChunkShape(c: Chunk, receiveFailed: bool) {
    (c.final ==> c.data == []) && c.abort == (c.final && receiveFailed)
  }

  /** Only the last chunk can be the final one, and it is exactly when the HTTP task has `closed` the
      stream. */
  ghost predicate FlightShape(flight: seq<Chunk>, receiveFailed: bool, closed: bool) {
    && (forall i :: 0 <= i < |flight| ==> ChunkShape(flight[i], receiveFailed))
    && (forall i :: 0 <= i < |flight| - 1 ==> !flight[i].final)
    && (closed <==> flight != [] && flight[|flight| - 1].final)
  }

  ghost predicate PipelineShape(s: State) {
    && |s.queue| <= QUEUE_DEPTH
    && if FlashDone(s) then HttpDone(s) && s.queue == []
       else FlightShape(InFlight(s), s.receiveFailed, HttpDone(s))
  }

  /** What the HTTP task knows: how much it has sent, and why it stopped. */
  ghost predicate HttpInv(s: State) {
    && 0 < |s.body|
    && s.remaining <= |s.body|
    && (s.http.Receiving? || s.http.Sending? ==> !s.receiveFailed)
    && (s.http.Sending? ==>
          && 0 < |s.http.chunk.data| <= s.remaining
          && |s.http.chunk.data| <= CHUNK_BYTES
          && !s.http.chunk.final && !s.http.chunk.abort
          && s.http.chunk.data == s.body[Received(s)..Received(s) + |s.http.chunk.data|])
    && (!s.http.Receiving? && !s.http.Sending? && !s.receiveFailed ==> s.remaining == 0)
  }

  /** What the worker knows, and the session's life time. */
  ghost predicate FlashInv(s: State) {
    && (s.flash.Beginning? ==> !s.begun && !s.failed && s.err == Ok && s.written == [])
    && (!s.flash.Beginning? && !s.begun ==> s.failed)
    && (s.begun && !s.failed && !(s.flash.Publishing? || s.flash.Giving? || s.flash.Gone?) ==> s.err == Ok)
    && (FlashDone(s) && !s.failed ==> !s.receiveFailed)
    && (s.switched ==> !s.failed && (s.flash.Publishing? || s.flash.Giving? || s.flash.Gone?))
    && (s.flash.Switching? ==> s.begun && !s.failed)
    && (s.flash.Publishing? ==> (s.switched <==> !s.failed && s.err == Ok))
    && (s.flash.Giving? || s.flash.Gone? ==>
          && (s.switched <==> s.result == Ok)
          && (s.result == Ok <==> !s.failed && s.err == Ok))
    && (s.finished ==> s.flash.Gone? && s.http.Waiting?)
    && (s.flash.Gone? ==> s.finished || s.http.Collecting? || s.http.Replied?)
    && (s.http.Collecting? || s.http.Replied? ==> s.flash.Gone?)
    && (s.freed <==> s.http.Replied?)
    && (s.http.Replied? ==> (s.http.success <==> s.switched))
  }

  /** Until a failure is recorded, what is written plus what is in flight is exactly what was sent. */
  ghost predicate DataInv(s: State)
    requires s.remaining <= |s.body|
  {
    !s.failed ==> s.written + Flatten(InFlight(s)) == s.body[..Received(s)]
  }

  ghost predicate Inv(s: State) {
    HttpInv(s) && PipelineShape(s) && FlashInv(s) && DataInv(s)
  }

  lemma InitEstablishesInv(s: State)
    requires Init(s)
    ensures Inv(s)
  {
  }

  lemma SendKeepsData(s: State, c: Chunk, s': State)
    requires s.remaining <= |s.body| && |c.data| <= s.remaining
    requires c.data == s.body[Received(s)..Received(s) + |c.data|]
    requires DataInv(s)
    requires s' == s.(queue := s.queue + [c], remaining := s.remaining - |c.data|, http := s'.http)
    ensures DataInv(s')
  {
    if !s.failed {
      assert InFlight(s') == InFlight(s) + [c];
      FlattenAppend(InFlight(s), c);
      assert s.body[..Received(s)] + c.data == s.body[..Received(s')];
    }
  }

  lemma HttpStepKeepsHttpInv(s: State, step: HttpStep)
    requires HttpInv(s) && HttpEnabled(s, step)
    ensures HttpInv(HttpApply(s, step)) && HttpApply(s, step).body == s.body
  {
  }

  lemma FlashStepKeepsHttpInv(s: State, step: FlashStep)
    requires HttpInv(s) && FlashEnabled(s, step)
    ensures HttpInv(FlashApply(s, step)) && FlashApply(s, step).body == s.body
  {
    var s' := FlashApply(s, step);
    assert s'.body == s.body && s'.http == s.http;
    assert s'.remaining == s.remaining && s'.receiveFailed == s.receiveFailed;
  }

  lemma HttpStepKeepsFlashInv(s: State, step: HttpStep)
    requires HttpInv(s) && PipelineShape(s) && FlashInv(s) && HttpEnabled(s, step)
    ensures FlashInv(HttpApply(s, step))
  {
  }

  lemma FlashStepKeepsFlashInv(s: State, step: FlashStep)
    requires HttpInv(s) && PipelineShape(s) && FlashInv(s) && FlashEnabled(s, step)
    ensures FlashInv(FlashApply(s, step))
  {
    if step.HandleChunk? {
      assert InFlight(s)[0] == s.flash.chunk;
    }
  }

  lemma FlightAppend(flight: seq<Chunk>, c: Chunk, receiveFailed: bool)
    requires FlightShape(flight, receiveFailed, false) && ChunkShape(c, receiveFailed)
    ensures FlightShape(flight + [c], receiveFailed, c.final)
  {
  }

  lemma FlightDrop(flight: seq<Chunk>, receiveFailed: bool, closed: bool)
    requires FlightShape(flight, receiveFailed, closed) && flight != []
    ensures if flight[0].final then |flight| == 1 && closed else FlightShape(flight[1..], receiveFailed, closed)
  {
    if |flight| > 1 {
      assert flight[1..][|flight| - 2] == flight[|flight| - 1];
    }
  }

  lemma HttpStepOnFlight(s: State, step: HttpStep)
    requires HttpEnabled(s, step)
    ensures InFlight(HttpApply(s, step)) ==
            if step.SendChunk? then InFlight(s) + [s.http.chunk]
            else if step.SendFinal? then InFlight(s) + [FinalChunk(s)]
            else InFlight(s)
  {
  }

  lemma FlashStepOnFlight(s: State, step: FlashStep)
    requires FlashEnabled(s, step)
    ensures InFlight(s) == (if step.HandleChunk? then [s.flash.chunk] else []) + InFlight(FlashApply(s, step))
  {
  }

  lemma HttpStepKeepsPipeline(s: State, step: HttpStep)
    requires HttpInv(s) && PipelineShape(s) && HttpEnabled(s, step)
    ensures PipelineShape(HttpApply(s, step))
  {
    HttpStepOnFlight(s, step);
    if !FlashDone(s) && step.SendChunk? {
      FlightAppend(InFlight(s), s.http.chunk, s.receiveFailed);
    } else if !FlashDone(s) && step.SendFinal? {
      FlightAppend(InFlight(s), FinalChunk(s), s.receiveFailed);
    }
  }

  lemma FlashStepKeepsPipeline(s: State, step: FlashStep)
    requires PipelineShape(s) && FlashEnabled(s, step)
    ensures PipelineShape(FlashApply(s, step))
  {
    FlashStepOnFlight(s, step);
    if step.HandleChunk? {
      var flight := InFlight(s);
      FlightDrop(flight, s.receiveFailed, HttpDone(s));
      assert flight[0] == s.flash.chunk && flight[1..] == InFlight(FlashApply(s, step));
    }
  }

  lemma HttpStepKeepsData(s: State, step: HttpStep)
    requires Inv(s) && HttpEnabled(s, step)
    ensures HttpApply(s, step).remaining <= |s.body| && DataInv(HttpApply(s, step))
  {
    var s' := HttpApply(s, step);
    match step
    case SendChunk => SendKeepsData(s, s.http.chunk, s');
    case SendFinal => SendKeepsData(s, FinalChunk(s), s');
    case _ => HttpStepOnFlight(s, step);
  }

  lemma HandleKeepsData(s: State, writeOk: bool)
    requires Inv(s) && s.flash.Handling?
    ensures DataInv(FlashApply(s, HandleChunk(writeOk)))
  {
    var c, s' := s.flash.chunk, FlashApply(s, HandleChunk(writeOk));
    assert InFlight(s) == [c] + InFlight(s');
    assert ChunkShape(InFlight(s)[0], s.receiveFailed);
    assert Flatten(InFlight(s)) == c.data + Flatten(InFlight(s')) by {
      assert InFlight(s)[1..] == InFlight(s');
    }
    if !s'.failed {
      assert s'.written == s.written + c.data;
      assert s.written + (c.data + Flatten(InFlight(s'))) == s'.written + Flatten(InFlight(s'));
    }
  }

  lemma FlashStepKeepsData(s: State, step: FlashStep)
    requires Inv(s) && FlashEnabled(s, step)
    ensures DataInv(FlashApply(s, step))
  {
    match step
    case HandleChunk(writeOk) => HandleKeepsData(s, writeOk);
    case _ =>
      FlashStepOnFlight(s, step);
      assert InFlight(s) == InFlight(FlashApply(s, step));
  }

  lemma StepKeepsInv(s: State, step: Step)
    requires Inv(s) && Enabled(s, step)
    ensures Inv(Apply(s, step)) && Apply(s, step).body == s.body
  {
    match step
    case Http(h) =>
      HttpStepKeepsHttpInv(s, h);
      HttpStepKeepsFlashInv(s, h);
      HttpStepKeepsPipeline(s, h);
      HttpStepKeepsData(s, h);
    case Flash(f) =>
      FlashStepKeepsHttpInv(s, f);
      FlashStepKeepsFlashInv(s, f);
      FlashStepKeepsPipeline(s, f);
      FlashStepKeepsData(s, f);
  }

  lemma {:induction false} RunKeepsInv(s0: State, steps: seq<Step>, s: State)
    requires Inv(s0) && Run(s0, steps, s)
    ensures Inv(s) && s.body == s0.body
    decreases |steps|
  {
    if steps == [] {
    } else {
      StepKeepsInv(s0, steps[0]);
      RunKeepsInv(Apply(s0, steps[0]), steps[1..], s);
    }
  }

  /** Whatever the interleaving and whatever fails: the boot partition is switched only to an image that
      is the whole request body in order. */
  lemma SwitchOnlyWholeImage(s0: State, steps: seq<Step>, s: State)
    requires Init(s0) && Run(s0, steps, s)
    ensures s.switched ==> s.written == s0.body && !s.receiveFailed && s.remaining == 0
  {
    InitEstablishesInv(s0);
    RunKeepsInv(s0, steps, s);
    if s.switched {
      assert InFlight(s) == [] && s.remaining == 0;
      assert s.body[..Received(s)] == s.body;
    }
  }

  /** The three parties agree: once the worker has published, its result is OK exactly when the switch
      happened, and the HTTP reply is a success exactly then. */
  lemma ResultReplyAndSwitchAgree(s0: State, steps: seq<Step>, s: State)
    requires Init(s0) && Run(s0, steps, s)
    ensures s.flash.Giving? || s.flash.Gone? ==> (s.result == Ok <==> s.switched)
    ensures s.http.Replied? ==> (s.http.success <==> s.switched)
  {
    InitEstablishesInv(s0);
    RunKeepsInv(s0, steps, s);
  }

  /** The queue never holds more than two chunks, and no chunk more than 512 octets. */
  lemma PipelineIsBounded(s0: State, steps: seq<Step>, s: State)
    requires Init(s0) && Run(s0, steps, s)
    ensures |s.queue| <= 2
    ensures s.http.Sending? ==> 0 < |s.http.chunk.data| <= 512 && |s.http.chunk.data| <= s.remaining
  {
    InitEstablishesInv(s0);
    RunKeepsInv(s0, steps, s);
  }

  /** What the worker does with a chunk: it writes the data only of one that is neither final nor an abort, and only
      until a failure; an abort or a failed write is the failure, and the final chunk ends the loop. */
  lemma ChunksExactly(s: State, writeOk: bool)
    requires s.flash.Handling?
    ensures var c, s' := s.flash.chunk, FlashApply(s, HandleChunk(writeOk));
      var writes := !c.abort && !c.final && !s.failed;
      && s'.written == s.written + (if writes && writeOk then c.data else [])
      && (s'.failed <==> s.failed || c.abort || (writes && !writeOk))
      && (s'.flash == Deciding <==> c.final) && (s'.flash == Polling <==> !c.final)
  {
  }

  /** When the HTTP task can receive and send: up to 512 octets of what remains, and into a queue that holds fewer than
      two chunks; a full queue may time out. */
  lemma TransfersExactly(s: State, n: nat)
    requires s.remaining <= |s.body|
    ensures HttpEnabled(s, ReceiveBytes(n)) <==> s.http == Receiving && 0 < n <= s.remaining && n <= 512
    ensures s.http.Sending? && |s.http.chunk.data| <= s.remaining ==> (HttpEnabled(s, SendChunk) <==> |s.queue| < 2)
    ensures s.http.Sending? ==> (HttpEnabled(s, SendChunkTimeout) <==> |s.queue| == 2)
    ensures s.http == Receiving ==> (HttpEnabled(s, ReceiveError) <==> s.remaining > 0)
    ensures s.http == Receiving ==> (HttpEnabled(s, EndOfBody) <==> s.remaining == 0)
  {
  }

  /** The environment choices that count as a failure of the upload. */
  predicate Fails(s: State, step: Step) {
    match step
    case Http(h) => h.ReceiveError? || h.SendChunkTimeout?
    case Flash(Begin(found, status)) => !found || status != Ok
    case Flash(HandleChunk(writeOk)) =>
      s.flash.Handling? && !writeOk && !s.flash.chunk.final && !s.flash.chunk.abort && !s.failed
    case Flash(EndImage(status)) => status != Ok
    case Flash(SwitchBoot(status)) => status != Ok
    case Flash(_) => false
  }

  ghost predicate NothingFails(s0: State, steps: seq<Step>)
    decreases |steps|
  {
    steps != [] ==>
      Enabled(s0, steps[0]) && !Fails(s0, steps[0]) && NothingFails(Apply(s0, steps[0]), steps[1..])
  }

  predicate Untroubled(s: State) {
    !s.receiveFailed && !s.failed && s.err == Ok
  }

  lemma StepAndTrouble(s: State, step: Step)
    requires Inv(s) && Enabled(s, step)
    ensures Untroubled(Apply(s, step)) <==> Untroubled(s) && !Fails(s, step)
  {
    if step.Flash? && step.flash.HandleChunk? {
      assert InFlight(s)[0] == s.flash.chunk;
      assert ChunkShape(s.flash.chunk, s.receiveFailed);
    }
  }

  lemma {:induction false} RunAndTrouble(s0: State, steps: seq<Step>, s: State)
    requires Inv(s0) && Run(s0, steps, s)
    ensures Untroubled(s) <==> Untroubled(s0) && NothingFails(s0, steps)
    decreases |steps|
  {
    if steps == [] {
    } else {
      StepAndTrouble(s0, steps[0]);
      StepKeepsInv(s0, steps[0]);
      RunAndTrouble(Apply(s0, steps[0]), steps[1..], s);
    }
  }

  /** The reply is a success if and only if nothing failed: no receive error, no queue timeout, and every
      flash call of the run returned OK. */
  lemma SuccessExactlyWhenNothingFails(s0: State, steps: seq<Step>, s: State)
    requires Init(s0) && Run(s0, steps, s)
    requires s.http.Replied?
    ensures s.http.success <==> NothingFails(s0, steps)
  {
    InitEstablishesInv(s0);
    RunKeepsInv(s0, steps, s);
    RunAndTrouble(s0, steps, s);
  }

  /** The session outlives the worker's last use of it: after it is freed no worker step exists. */
  lemma NoUseAfterFree(s0: State, steps: seq<Step>, s: State, step: Step)
    requires Init(s0) && Run(s0, steps, s)
    requires s.freed
    ensures !Enabled(s, step)
  {
    InitEstablishesInv(s0);
    RunKeepsInv(s0, steps, s);
  }

  /** A step that is always enabled in a state where the upload is not over. */
  function NextStep(s: State): Step {
    match s.flash
    case Beginning => Flash(Begin(true, Ok))
    case Handling(_) => Flash(HandleChunk(true))
    case Deciding => Flash(if !s.begun then SkipImage else if s.failed then AbortImage else EndImage(Ok))
    case Switching => Flash(SwitchBoot(Ok))
    case Publishing => Flash(Publish)
    case Giving => Flash(Give)
    case Polling => if s.queue != [] then Flash(TakeChunk) else Http(NextHttpStep(s))
    case Gone => Http(NextHttpStep(s))
  }

  function NextHttpStep(s: State): HttpStep {
    match s.http
    case Receiving => if s.remaining == 0 then EndOfBody else ReceiveBytes(1)
    case Sending(_) => SendChunk
    case SendingFinal => SendFinal
    case Waiting => TakeFinished
    case _ => CollectAndFree
  }

  /** No reachable state is stuck: either the reply is out, the session is freed and the worker is gone,
      or some step of some task is enabled. */
  lemma NoDeadlock(s0: State, steps: seq<Step>, s: State)
    requires Init(s0) && Run(s0, steps, s)
    ensures if s.http.Replied? then s.freed && s.flash.Gone? && s.queue == [] else Enabled(s, NextStep(s))
  {
    InitEstablishesInv(s0);
    RunKeepsInv(s0, steps, s);
  }

  /** How many steps other than receive timeouts can still happen. */
  function Rank(s: State): nat {
    var http := match s.http
      case Receiving => 4 * s.remaining + 6
      case Sending(_) => 4 * s.remaining + 5
      case SendingFinal => 5
      case Waiting => 2
      case Collecting => 1
      case Replied(_) => 0;
    var flash := match s.flash
      case Beginning => 6
      case Polling => 5
      case Handling(_) => 6
      case Deciding => 4
      case Switching => 3
      case Publishing => 2
      case Giving => 1
      case Gone => 0;
    http + 2 * |s.queue| + flash
  }

  lemma HttpStepLowersRank(s: State, step: HttpStep)
    requires HttpInv(s) && HttpEnabled(s, step)
    ensures if step.ReceiveTimeout? then HttpApply(s, step) == s else Rank(HttpApply(s, step)) < Rank(s)
  {
  }

  lemma FlashStepLowersRank(s: State, step: FlashStep)
    requires FlashEnabled(s, step)
    ensures Rank(FlashApply(s, step)) < Rank(s)
  {
  }

  function Progress(steps: seq<Step>): nat {
    if steps == [] then 0 else (if steps[0] == Http(ReceiveTimeout) then 0 else 1) + Progress(steps[1..])
  }

  lemma {:induction false} ProgressIsBounded(s0: State, steps: seq<Step>, s: State)
    requires Inv(s0) && Run(s0, steps, s)
    ensures Progress(steps) + Rank(s) <= Rank(s0)
    decreases |steps|
  {
    if steps == [] {
    } else {
      match steps[0] {
        case Http(h) => HttpStepLowersRank(s0, h);
        case Flash(f) => FlashStepLowersRank(s0, f);
      }
      StepKeepsInv(s0, steps[0]);
      ProgressIsBounded(Apply(s0, steps[0]), steps[1..], s);
    }
  }

  /** Every upload ends: apart from receive timeouts, no interleaving has more than four steps per body
      byte plus twelve, so together with `NoDeadlock` every maximal run reaches the reply. */
  lemma UploadEnds(s0: State, steps: seq<Step>, s: State)
    requires Init(s0) && Run(s0, steps, s)
    ensures Progress(steps) <= 4 * |s0.body| + 12
  {
    InitEstablishesInv(s0);
    ProgressIsBounded(s0, steps, s);
  }
}
