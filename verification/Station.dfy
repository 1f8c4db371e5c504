/** Wi-Fi self-healing: the event handler and the reconnect timer's callback run on different tasks, so
    their statements interleave. Each step is a stretch of one of them up to its next access to the timer, the
    IP flag or the loss stamp. */
module Station {
  import opened Wrappers

  const STA_MAX_RETRIES := 5
  const STA_STALL_REBOOT_MS := 600_000

  /** Where the event handler is: for a disconnect between flag and stamp, and before its retry counter and its
      timer calls; for a new IP between flag and stamp, and before its timer call. */
  datatype EventPc = EventIdle | Stamping | Counting | Stopping | Starting | Clearing | StoppingAfterIp

  /** Where the timer callback is: fired, past the IP check, past the first read of the loss stamp with
      that stamp nonzero, about to re-arm. */
  datatype TimerPc = TimerIdle | Fired | Connecting | Judging | Rearming

  /** `timer` is the time the one-shot timer is armed for. `lossAt` is history: when the IP flag was last
      taken back. */
  datatype State = State(
    clock: int, event: EventPc, callback: TimerPc,
    retry: nat, backoff: nat, hasIp: bool, everHadIp: bool, lostSince: int,
    bootGroup: bool, timer: Option<int>, rebooted: bool, lossAt: int)

  /** `sta_backoff_ms` for a given random draw: the delay and the next step. */
  function BackoffMs(step: nat, random: nat): nat {
    var base := match (if step > 4 then 4 else step)
      case 0 => 1000
      case 1 => 2000
      case 2 => 4000
      case 3 => 8000
      case _ => 16000;
    (if base > 15000 then 15000 else base) + random % 500
  }

  function NextBackoff(step: nat): nat {
    if step < 4 then step + 1 else step
  }

  lemma BackoffIsBounded(step: nat, random: nat)
    ensures 1000 <= BackoffMs(step, random) < 15_500
  {
  }

  datatype Step =
    | Pass(us: nat)
    | Disconnected
    | StampLoss
    | CountRetry
    | StopTimer
    | StartTimer(random: nat)
    | GotIp
    | ClearStamp
    | StopAfterIp
    | BootDone
    | Fire
    | CheckIp
    | ReadStamp
    | Judge
    | Rearm(random: nat)

  predicate Enabled(s: State, step: Step) {
    !s.rebooted &&
    match step
    case Pass(_) => true
    case Disconnected => s.event.EventIdle?
    case StampLoss => s.event.Stamping?
    case CountRetry => s.event.Counting?
    case StopTimer => s.event.Stopping?
    case StartTimer(_) => s.event.Starting?
    case GotIp => s.event.EventIdle?
    case ClearStamp => s.event.Clearing?
    case StopAfterIp => s.event.StoppingAfterIp?
    case BootDone => s.everHadIp
    case Fire => s.callback.TimerIdle? && s.timer.Some? && s.timer.value <= s.clock
    case CheckIp => s.callback.Fired?
    case ReadStamp => s.callback.Connecting?
    case Judge => s.callback.Judging?
    case Rearm(_) => s.callback.Rearming?
  }

  /** `esp_timer_start_once` fails, and changes nothing, when the timer is armed already; the delay has
      been drawn either way. */
  function Arm(s: State, random: nat): State {
    var at := s.clock + BackoffMs(s.backoff, random) * 1000;
    s.(backoff := NextBackoff(s.backoff), timer := if s.timer.Some? then s.timer else Some(at))
  }

  /** `down_ms > STA_STALL_REBOOT_MS`, on the stamp as the second read finds it. */
  predicate Stalled(s: State) {
    s.lostSince <= s.clock && (s.clock - s.lostSince) / 1000 > STA_STALL_REBOOT_MS
  }

  function Apply(s: State, step: Step): State
    requires Enabled(s, step)
  {
    match step
    case Pass(us) => s.(clock := s.clock + us)
    case Disconnected =>
      if s.hasIp then s.(hasIp := false, lossAt := s.clock, event := Stamping) else s.(event := Counting)
    case StampLoss => s.(lostSince := s.clock, event := Counting)
    case CountRetry =>
      if s.retry < STA_MAX_RETRIES then s.(retry := s.retry + 1, event := Stopping)
      else if s.bootGroup then s.(event := EventIdle)
      else s.(event := Stopping)
    case StopTimer => s.(timer := None, event := Starting)
    case StartTimer(random) => Arm(s, random).(event := EventIdle)
    case GotIp => s.(retry := 0, backoff := 0, hasIp := true, everHadIp := true, event := Clearing)
    case ClearStamp => s.(lostSince := 0, event := StoppingAfterIp)
    case StopAfterIp => s.(timer := None, event := EventIdle)
    case BootDone => s.(bootGroup := false)
    case Fire => s.(timer := None, callback := Fired)
    case CheckIp => s.(callback := if s.hasIp then TimerIdle else Connecting)
    case ReadStamp => s.(callback := if s.everHadIp && s.lostSince != 0 then Judging else Rearming)
    case Judge => if Stalled(s) then s.(rebooted := true) else s.(callback := Rearming)
    case Rearm(random) => Arm(s, random).(callback := TimerIdle)
  }

  /** At boot the station has never had an IP and the timer has just been created. */
  predicate Init(s: State) {
    0 < s.clock && s == State(s.clock, EventIdle, TimerIdle, 0, 0, false, false, 0, true, None, false, 0)
  }

  ghost predicate Run(s0: State, steps: seq<Step>, s: State)
    decreases |steps|
  {
    if steps == [] then s == s0
    else Enabled(s0, steps[0]) && Run(Apply(s0, steps[0]), steps[1..], s)
  }

  /** Some task is on its way to arming the timer. */
  predicate ArmingInProgress(s: State) {
    s.event.Stamping? || (s.event.Counting? && s.retry < STA_MAX_RETRIES) || s.event.Stopping? || s.event.Starting?
    || !s.callback.TimerIdle?
  }

  ghost predicate Inv(s: State) {
    && 0 < s.clock
    && (s.hasIp ==> s.everHadIp && s.retry == 0)
    && (!s.event.Stamping? && !s.event.Clearing? ==> (s.lostSince != 0 <==> s.everHadIp && !s.hasIp))
    && (s.lostSince != 0 ==> s.everHadIp && s.lossAt <= s.lostSince <= s.clock)
    && (s.everHadIp && !s.hasIp ==> 0 < s.lossAt <= s.clock)
    && (s.event.Stamping? ==> s.everHadIp && !s.hasIp && s.lostSince == 0 && s.retry == 0)
    && (s.timer.Some? ==> s.timer.value < s.clock + 15_500_000)
    && (s.hasIp ==> s.event.EventIdle? || s.event.Clearing? || s.event.StoppingAfterIp?)
    && (s.event.Clearing? || s.event.StoppingAfterIp? ==> s.hasIp)
    && (s.everHadIp && !s.hasIp ==> s.timer.Some? || ArmingInProgress(s))
    && (s.callback.Judging? || s.rebooted ==> s.everHadIp)
  }

  lemma StepKeepsInv(s: State, step: Step)
    requires Inv(s) && Enabled(s, step)
    ensures Inv(Apply(s, step))
  {
    match step
    case StartTimer(random) => BackoffIsBounded(s.backoff, random);
    case Rearm(random) => BackoffIsBounded(s.backoff, random);
    case _ =>
  }

  lemma {:induction false} RunKeepsInv(s0: State, steps: seq<Step>, s: State)
    requires Inv(s0) && Run(s0, steps, s)
    ensures Inv(s)
    decreases |steps|
  {
    hide Enabled, Apply, Inv;
    if steps == [] {
    } else {
      StepKeepsInv(s0, steps[0]);
      RunKeepsInv(Apply(s0, steps[0]), steps[1..], s);
    }
  }

  /** Once an IP has been held, a station without one always has its reconnect timer armed, less than
      15.5 s ahead, or a handler is just about to arm it: under every interleaving and however many
      disconnects arrive, also before the boot event group is gone. */
  lemma SelfHealing(s0: State, steps: seq<Step>, s: State)
    requires Init(s0) && Run(s0, steps, s)
    ensures s.everHadIp && !s.hasIp ==>
              (s.timer.Some? && s.timer.value < s.clock + 15_500_000) || ArmingInProgress(s)
    ensures s.everHadIp && !s.hasIp && s.event.EventIdle? && s.callback.TimerIdle? ==> s.timer.Some?
  {
    RunKeepsInv(s0, steps, s);
  }

  /** An IP once held is lost, and neither a handler nor the callback has armed the timer. */
  predicate Unarmed(s: State) {
    s.everHadIp && !s.hasIp && s.timer.None? && !s.rebooted
  }

  /** The disconnect handler gives up without arming: its retries are used up while the boot event group exists. */
  predicate GivesUp(s: State, step: Step) {
    step.CountRetry? && s.retry >= STA_MAX_RETRIES && s.bootGroup
  }

  /** A statement of one of the two tasks, as opposed to time passing, an event arriving or the timer firing. */
  predicate Works(s: State, step: Step) {
    match step
    case Pass(_) => false
    case Disconnected => false
    case GotIp => false
    case BootDone => false
    case Fire => false
    case _ => !GivesUp(s, step)
  }

  function Distance(s: State): nat {
    var event := match s.event
      case Stamping => 4
      case Stopping => 2
      case Starting => 1
      case _ => 3;
    var callback := match s.callback
      case Fired => 4
      case Connecting => 3
      case Judging => 2
      case Rearming => 1
      case TimerIdle => 0;
    event + callback
  }

  function Work(s0: State, steps: seq<Step>): nat
    decreases |steps|
  {
    if steps == [] || !Enabled(s0, steps[0]) then 0
    else (if Works(s0, steps[0]) then 1 else 0) + Work(Apply(s0, steps[0]), steps[1..])
  }

  ghost predicate StaysUnarmed(s0: State, steps: seq<Step>)
    decreases |steps|
  {
    Unarmed(s0) && (steps != [] ==> Enabled(s0, steps[0]) && StaysUnarmed(Apply(s0, steps[0]), steps[1..]))
  }

  lemma StepComesCloser(s: State, step: Step)
    requires Inv(s) && Enabled(s, step) && Unarmed(s) && Unarmed(Apply(s, step))
    ensures Distance(Apply(s, step)) + (if Works(s, step) then 1 else 0) <= Distance(s)
  {
  }

  lemma {:induction false} UnarmedWorkIsBounded(s0: State, steps: seq<Step>)
    requires Inv(s0) && StaysUnarmed(s0, steps)
    ensures Work(s0, steps) <= Distance(s0)
    decreases |steps|
  {
    hide Enabled, Apply, Inv, Distance, Works, Unarmed;
    if steps == [] {
    } else {
      StepKeepsInv(s0, steps[0]);
      StepComesCloser(s0, steps[0]);
      UnarmedWorkIsBounded(Apply(s0, steps[0]), steps[1..]);
    }
  }

  /** The statement that brings an unarmed station closer to its timer. */
  function NextWork(s: State): Step {
    match s.event
    case Stamping => StampLoss
    case Stopping => StopTimer
    case Starting => StartTimer(0)
    case _ =>
      if s.event.Counting? && s.retry < STA_MAX_RETRIES then CountRetry
      else match s.callback
        case Fired => CheckIp
        case Connecting => ReadStamp
        case Judging => Judge
        case _ => Rearm(0)
  }

  /** The arming in progress comes to an end: in a reachable state a station that has lost its IP and has no timer
      always has a statement to work on, and whatever arrives meanwhile, no more than eight such statements go by
      before the timer is armed, an IP is held or the station reboots. */
  lemma ArmingEnds(s0: State, before: seq<Step>, s: State, steps: seq<Step>)
    requires Init(s0) && Run(s0, before, s) && Unarmed(s)
    ensures Enabled(s, NextWork(s)) && Works(s, NextWork(s))
    ensures StaysUnarmed(s, steps) ==> Work(s, steps) <= 8
  {
    RunKeepsInv(s0, before, s);
    if StaysUnarmed(s, steps) {
      UnarmedWorkIsBounded(s, steps);
    }
  }

  /** The loss stamp is nonzero exactly while an IP once held is lost, apart from the moment between the handler's
      flag and its stamp, and then it was taken at or after the loss. */
  lemma LossStampIsExact(s0: State, steps: seq<Step>, s: State)
    requires Init(s0) && Run(s0, steps, s)
    ensures !s.event.Stamping? && !s.event.Clearing? ==> (s.lostSince != 0 <==> s.everHadIp && !s.hasIp)
    ensures s.event.Stamping? ==> s.everHadIp && !s.hasIp && s.lostSince == 0
    ensures s.event.Clearing? ==> s.hasIp
    ensures s.lostSince != 0 ==> s.lossAt <= s.lostSince <= s.clock
  {
    RunKeepsInv(s0, steps, s);
  }

  /** No time passes while the handler is between flag and stamp. */
  ghost predicate Prompt(s0: State, steps: seq<Step>)
    decreases |steps|
  {
    steps != [] ==>
      && Enabled(s0, steps[0])
      && (s0.event.Stamping? && steps[0].Pass? ==> steps[0].us == 0)
      && Prompt(Apply(s0, steps[0]), steps[1..])
  }

  predicate StampIsLossTime(s: State) {
    && (s.event.Stamping? ==> s.lossAt == s.clock)
    && (s.lostSince != 0 ==> s.lostSince == s.lossAt)
  }

  lemma {:induction false} PromptStamp(s0: State, steps: seq<Step>, s: State)
    requires Inv(s0) && StampIsLossTime(s0) && Run(s0, steps, s) && Prompt(s0, steps)
    ensures StampIsLossTime(s)
    decreases |steps|
  {
    if steps == [] {
    } else {
      StepKeepsInv(s0, steps[0]);
      PromptStamp(Apply(s0, steps[0]), steps[1..], s);
    }
  }

  /** If the handler goes from flag to stamp without delay, the stamp is the time of loss. */
  lemma StampEqualsLossTime(s0: State, steps: seq<Step>, s: State)
    requires Init(s0) && Run(s0, steps, s) && Prompt(s0, steps)
    ensures s.lostSince != 0 ==> s.lostSince == s.lossAt
  {
    PromptStamp(s0, steps, s);
  }

  /** The station has been without an IP for more than 600 s. */
  predicate Stall(s: State) {
    !s.hasIp && s.clock - s.lossAt > 600_000_000
  }

  /** A reboot never happens to a station that never had an IP. It follows more than 600 s continuously without one
      if and only if the station is without an IP when the stamp is read for the second time, and the disconnect
      handler is past its stamp or has itself been held up for 600 s. Otherwise an IP arrived after the callback's
      IP check: the stamp is not cleared yet, or it is zero and the time since boot was compared. */
  lemma RebootExactly(s0: State, steps: seq<Step>, s: State)
    requires Init(s0) && Run(s0, steps, s)
    requires Enabled(s, Judge) && Apply(s, Judge).rebooted
    ensures s.everHadIp
    ensures Stall(s) <==> !s.hasIp && (s.event.Stamping? ==> s.clock - s.lossAt > 600_000_000)
    ensures s.hasIp && s.lostSince != 0 ==> s.event.Clearing? && s.clock - s.lostSince > 600_000_000
    ensures s.lostSince == 0 ==> (s.hasIp || s.event.Stamping?) && s.clock > 600_000_000
  {
    RunKeepsInv(s0, steps, s);
  }

  /** The callback was not overtaken: no IP arrived between its IP check and its judgement. */
  ghost predicate NotOvertaken(s0: State, steps: seq<Step>)
    decreases |steps|
  {
    steps != [] ==>
      && Enabled(s0, steps[0])
      && !(steps[0].GotIp? && (s0.callback.Connecting? || s0.callback.Judging?))
      && NotOvertaken(Apply(s0, steps[0]), steps[1..])
  }

  predicate WindowWithoutIp(s: State) {
    && (s.callback.Connecting? || s.callback.Judging? ==> !s.hasIp)
    && (s.callback.Judging? ==> s.lostSince != 0)
  }

  lemma {:induction false} JudgingWithoutIp(s0: State, steps: seq<Step>, s: State)
    requires Inv(s0) && WindowWithoutIp(s0)
    requires Run(s0, steps, s) && NotOvertaken(s0, steps)
    ensures WindowWithoutIp(s)
    decreases |steps|
  {
    if steps == [] {
    } else {
      StepKeepsInv(s0, steps[0]);
      JudgingWithoutIp(Apply(s0, steps[0]), steps[1..], s);
    }
  }

  /** So when the callback is never overtaken in that window, every reboot follows more than 600 s
      continuously without an IP. */
  lemma RebootOnlyAfterStall(s0: State, steps: seq<Step>, s: State)
    requires Init(s0) && Run(s0, steps, s) && NotOvertaken(s0, steps)
    requires Enabled(s, Judge) && Apply(s, Judge).rebooted
    ensures s.everHadIp && Stall(s)
  {
    RunKeepsInv(s0, steps, s);
    JudgingWithoutIp(s0, steps, s);
  }

  /** The delays: one, two, four, eight and then fifteen seconds, each with up to half a second more. */
  lemma BackoffExactly(step: nat, random: nat)
    ensures BackoffMs(step, random) - random % 500 ==
            if step == 0 then 1000 else if step == 1 then 2000 else if step == 2 then 4000
            else if step == 3 then 8000 else 15_000
    ensures NextBackoff(step) == if step <= 3 then step + 1 else step
  {
  }

  /** What arming does: nothing to a timer that is armed, and the delay grows either way; a new IP starts it over. */
  lemma ArmingExactly(s: State, random: nat)
    ensures var s' := Arm(s, random);
      && s'.timer == (if s.timer.Some? then s.timer else Some(s.clock + BackoffMs(s.backoff, random) * 1000))
      && s'.backoff == NextBackoff(s.backoff)
    ensures Enabled(s, GotIp) ==> Apply(s, GotIp).backoff == 0 && Apply(s, GotIp).retry == 0 && Apply(s, GotIp).hasIp
    ensures Enabled(s, StopAfterIp) ==> Apply(s, StopAfterIp).timer == None
  {
  }

  /** The disconnect handler goes on to arm the timer, unless five retries are used up while the boot event group
      exists. */
  lemma GivesUpExactly(s: State)
    requires Enabled(s, CountRetry)
    ensures Apply(s, CountRetry).event == if s.retry >= 5 && s.bootGroup then EventIdle else Stopping
    ensures Apply(s, CountRetry).retry == if s.retry < 5 then s.retry + 1 else s.retry
  {
  }

  /** A disconnect that is handled without interruption and not given up ends with the timer armed afresh: the next
      delay from now on, whatever it was armed for before. */
  lemma DisconnectRearms(s: State, random: nat)
    requires Enabled(s, Disconnected) && !(s.retry >= 5 && s.bootGroup)
    ensures
      var s1 := Apply(s, Disconnected);
      && (s.hasIp ==> Enabled(s1, StampLoss))
      && var s2 := if s.hasIp then Apply(s1, StampLoss) else s1;
         && Enabled(s2, CountRetry)
         && var s3 := Apply(s2, CountRetry);
            && Enabled(s3, StopTimer)
            && var s4 := Apply(s3, StopTimer);
               && Enabled(s4, StartTimer(random))
               && var s5 := Apply(s4, StartTimer(random));
                  && s5.timer == Some(s.clock + BackoffMs(s.backoff, random) * 1000)
                  && s5.event == EventIdle && !s5.hasIp && s5.callback == s.callback
                  && s5.lostSince == (if s.hasIp then s.clock else s.lostSince)
  {
  }

  /** A firing that is handled without interruption on a station without an IP, and that is not stalled, ends with the
      timer armed and the callback waiting for it; with an IP the callback does nothing. */
  lemma FiringRearms(s: State, random: nat)
    requires Enabled(s, Fire) && s.clock - s.lostSince < 600_001_000
    ensures
      var s1 := Apply(s, Fire);
      && Enabled(s1, CheckIp)
      && var s2 := Apply(s1, CheckIp);
         if s.hasIp then s2 == s.(timer := None)
         else
           && Enabled(s2, ReadStamp)
           && var s3 := Apply(s2, ReadStamp);
              && (s.everHadIp && s.lostSince != 0 <==> Enabled(s3, Judge))
              && var s4 := if Enabled(s3, Judge) then Apply(s3, Judge) else s3;
                 && Enabled(s4, Rearm(random))
                 && var s5 := Apply(s4, Rearm(random));
                    && s5.timer == Some(s.clock + BackoffMs(s.backoff, random) * 1000)
                    && s5.callback == TimerIdle && !s5.rebooted
  {
  }

  /** Once the boot event group is gone, the disconnect handler never gives up. */
  lemma BootDoneEndsGivingUp(s: State)
    ensures Enabled(s, BootDone) ==> !Apply(s, BootDone).bootGroup && Apply(s, BootDone).retry == s.retry
    ensures Enabled(s, CountRetry) && !s.bootGroup ==> Apply(s, CountRetry).event == Stopping
  {
  }

  /** When the callback judges, it reboots exactly if the time since the stamp is more than 600,000 whole
      milliseconds. */
  lemma JudgesExactly(s: State)
    requires Enabled(s, Judge) && s.lostSince <= s.clock
    ensures Apply(s, Judge).rebooted <==> s.clock - s.lostSince >= 600_001_000
    ensures !Apply(s, Judge).rebooted ==> Apply(s, Judge).callback == Rearming
  {
  }

  /** A stalled station does reboot: in every reachable state without an IP whose stamp is that old, the next firing
      of the timer ends in a reboot, unless an IP arrives first. */
  lemma StalledStationReboots(s0: State, steps: seq<Step>, s: State)
    requires Init(s0) && Run(s0, steps, s)
    requires s.everHadIp && !s.hasIp && !s.rebooted && !s.event.Stamping? && s.callback.TimerIdle?
    requires s.clock - s.lostSince >= 600_001_000
    requires s.timer.Some? && s.timer.value <= s.clock
    ensures
      var s1 := s.(timer := None, callback := Fired);
      && Enabled(s, Fire) && Apply(s, Fire) == s1
      && Enabled(s1, CheckIp)
      && var s2 := Apply(s1, CheckIp);
         && Enabled(s2, ReadStamp)
         && var s3 := Apply(s2, ReadStamp);
            && Enabled(s3, Judge) && Apply(s3, Judge).rebooted
  {
    RunKeepsInv(s0, steps, s);
  }

  lemma Prepend(s0: State, step: Step, steps: seq<Step>, s: State)
    requires Enabled(s0, step) && Run(Apply(s0, step), steps, s)
    ensures Run(s0, [step] + steps, s)
  {
    assert ([step] + steps)[1..] == steps;
  }

  /** The timer fires while the IP is lost, and the IP is regained between the callback's two reads of the loss
      stamp. */
  lemma Recovery(s0: State) returns (steps: seq<Step>, s: State)
    requires s0 == State(660_000_001, EventIdle, TimerIdle, 1, 1, false, true, 660_000_001, true,
                         Some(661_000_001), false, 660_000_001)
    ensures Run(s0, steps, s)
    ensures s == State(661_000_001, StoppingAfterIp, Judging, 0, 0, true, true, 0, true, None, false, 660_000_001)
  {
    hide Run;
    var s1 := Apply(s0, Pass(1_000_000));
    var s2 := Apply(s1, Fire);
    var s3 := Apply(s2, CheckIp);
    var s4 := Apply(s3, ReadStamp);
    var s5 := Apply(s4, GotIp);
    s := Apply(s5, ClearStamp);
    steps := [ClearStamp];
    OneStep(s5, ClearStamp);
    Prepend(s4, GotIp, steps, s);
    steps := [GotIp] + steps;
    Prepend(s3, ReadStamp, steps, s);
    steps := [ReadStamp] + steps;
    Prepend(s2, CheckIp, steps, s);
    steps := [CheckIp] + steps;
    Prepend(s1, Fire, steps, s);
    steps := [Fire] + steps;
    Prepend(s0, Pass(1_000_000), steps, s);
    steps := [Pass(1_000_000)] + steps;
  }

  /** An IP is lost, and regained a second later. */
  lemma LossAndRecovery(s0: State) returns (steps: seq<Step>, s: State)
    requires s0 == State(660_000_001, EventIdle, TimerIdle, 0, 0, true, true, 0, true, None, false, 0)
    ensures Run(s0, steps, s)
    ensures s == State(661_000_001, StoppingAfterIp, Judging, 0, 0, true, true, 0, true, None, false, 660_000_001)
  {
    hide Run;
    var s1 := Apply(s0, Disconnected);
    var s2 := Apply(s1, StampLoss);
    var s3 := Apply(s2, CountRetry);
    var s4 := Apply(s3, StopTimer);
    steps, s := Recovery(Apply(s4, StartTimer(0)));
    Prepend(s4, StartTimer(0), steps, s);
    steps := [StartTimer(0)] + steps;
    Prepend(s3, StopTimer, steps, s);
    steps := [StopTimer] + steps;
    Prepend(s2, CountRetry, steps, s);
    steps := [CountRetry] + steps;
    Prepend(s1, StampLoss, steps, s);
    steps := [StampLoss] + steps;
    Prepend(s0, Disconnected, steps, s);
    steps := [Disconnected] + steps;
  }

  lemma OneStep(s: State, step: Step)
    requires Enabled(s, step)
    ensures Run(s, [step], Apply(s, step))
  {
    assert [step][1..] == [];
  }

  /** A run in which the window is hit: eleven minutes after boot the IP is lost for one second and regained
      between the two reads, and the station reboots although it has an IP. */
  lemma SpuriousReboot(s0: State) returns (steps: seq<Step>, s: State)
    requires Init(s0) && s0.clock == 1
    ensures Run(s0, steps, s) && Enabled(s, Judge) && Apply(s, Judge).rebooted
    ensures s.hasIp && s.clock - s.lossAt < 2_000_000
  {
    hide Run;
    var s1 := Apply(s0, GotIp);
    var s2 := Apply(s1, ClearStamp);
    var s3 := Apply(s2, StopAfterIp);
    steps, s := LossAndRecovery(Apply(s3, Pass(660_000_000)));
    Prepend(s3, Pass(660_000_000), steps, s);
    steps := [Pass(660_000_000)] + steps;
    Prepend(s2, StopAfterIp, steps, s);
    steps := [StopAfterIp] + steps;
    Prepend(s1, ClearStamp, steps, s);
    steps := [ClearStamp] + steps;
    Prepend(s0, GotIp, steps, s);
    steps := [GotIp] + steps;
  }
}
