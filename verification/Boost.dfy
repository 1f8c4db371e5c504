/** The Boost timer: commands, timeout changes and the poll that reverts a boost to Auto. */
module Boost {
  import opened Wrappers

  const MODE_AUTO := 1
  const TIMEOUT_MAX_MIN := 240
  const TIMEOUT_DEFAULT_MIN := 60
  const MINUTE_US := 60_000_000

  /** The four file-level variables, and as history when the deadline was last armed and with how many
      minutes. Deadline 0 means none. */
  datatype Timer = Timer(
    timeout: nat, revertExternal: bool, selfInitiated: bool, deadline: int,
    armedAt: int, armedMinutes: nat)

  function Arm(t: Timer, now: int): Timer {
    t.(deadline := now + t.timeout * MINUTE_US, armedAt := now, armedMinutes := t.timeout)
  }

  function ArmOrClear(t: Timer, now: int): Timer {
    if t.timeout > 0 then Arm(t, now) else t.(deadline := 0)
  }

  function Cleared(t: Timer): Timer {
    t.(selfInitiated := false, deadline := 0)
  }

  datatype Event =
    | Command(mode: int, readBack: Option<int>)
    | SetTimeout(minutes: int)
    | Poll(observed: Option<int>, readBack: Option<int>)

  /** `boost_apply` once the device is ready: what counts is the mode read back, or the mode commanded when
      the read fails. */
  function ApplyMode(t: Timer, mode: int, selfInitiated: bool, readBack: Option<int>, now: int): Timer {
    var actual := if readBack.Some? then readBack.value else mode;
    if actual == MODE_AUTO then Cleared(t)
    else if selfInitiated then ArmOrClear(t.(selfInitiated := true), now)
    else t
  }

  /** The poll is about to send an automatic revert. */
  predicate RevertDue(t: Timer, observed: Option<int>, now: int) {
    && observed.Some? && observed.value != MODE_AUTO
    && t.timeout > 0 && (t.selfInitiated || t.revertExternal)
    && t.deadline != 0 && now >= t.deadline
  }

  function AfterPoll(t: Timer, observed: Option<int>, readBack: Option<int>, now: int): Timer {
    if observed.None? then t
    else if observed.value == MODE_AUTO then Cleared(t)
    else if t.timeout > 0 && (t.selfInitiated || t.revertExternal) then
      if t.deadline == 0 then Arm(t, now)
      else if now >= t.deadline then ApplyMode(t, MODE_AUTO, false, readBack, now)
      else t
    else t
  }

  function AfterSetTimeout(t: Timer, minutes: int, now: int): Timer {
    if minutes < 0 || minutes > TIMEOUT_MAX_MIN then t
    else
      var t' := t.(timeout := minutes);
      if t.selfInitiated && t.deadline != 0 then ArmOrClear(t', now) else t'
  }

  function Next(t: Timer, e: Event, now: int): Timer {
    match e
    case Command(mode, readBack) => ApplyMode(t, mode, true, readBack, now)
    case SetTimeout(minutes) => AfterSetTimeout(t, minutes, now)
    case Poll(observed, readBack) => AfterPoll(t, observed, readBack, now)
  }

  /** `boost_remaining_minutes` */
  function RemainingMinutes(t: Timer, now: int): nat {
    if t.deadline == 0 || t.deadline - now <= 0 then 0
    else (t.deadline - now + 59_999_999) / MINUTE_US
  }

  datatype Timed = Timed(event: Event, at: int)

  /** The timer after a sequence of events at nondecreasing times. */
  function After(t: Timer, events: seq<Timed>): Timer {
    if events == [] then t
    else Next(After(t, events[..|events| - 1]), events[|events| - 1].event, events[|events| - 1].at)
  }

  ghost predicate Ordered(boot: int, events: seq<Timed>) {
    && (forall i :: 0 <= i < |events| ==> boot <= events[i].at)
    && (forall i, j :: 0 <= i < j < |events| ==> events[i].at <= events[j].at)
  }

  function Initial(revertExternal: bool): Timer {
    Timer(TIMEOUT_DEFAULT_MIN, revertExternal, false, 0, 0, 0)
  }

  ghost predicate Inv(t: Timer, now: int) {
    && t.timeout <= TIMEOUT_MAX_MIN
    && 0 < now
    && (t.deadline != 0 ==>
          && 0 < t.armedAt <= now && 0 < t.armedMinutes <= TIMEOUT_MAX_MIN
          && t.deadline == t.armedAt + t.armedMinutes * MINUTE_US
          && (t.selfInitiated ==> t.armedMinutes == t.timeout))
  }

  lemma StepKeepsInv(t: Timer, e: Event, before: int, now: int)
    requires Inv(t, before) && before <= now
    ensures Inv(Next(t, e, now), now)
  {
  }

  lemma {:induction false} RunKeepsInv(boot: int, revertExternal: bool, events: seq<Timed>, now: int)
    requires 0 < boot <= now && Ordered(boot, events)
    requires forall i :: 0 <= i < |events| ==> events[i].at <= now
    ensures Inv(After(Initial(revertExternal), events), now)
    decreases |events|
  {
    if events == [] {
    } else {
      var last := |events| - 1;
      RunKeepsInv(boot, revertExternal, events[..last], events[last].at);
      StepKeepsInv(After(Initial(revertExternal), events[..last]), events[last].event, events[last].at, events[last].at);
    }
  }

  /** Over every run: the deadline of a self-initiated boost is the last arming time plus the current
      timeout. */
  lemma {:induction false} SelfDeadline(boot: int, revertExternal: bool, events: seq<Timed>, now: int)
    requires 0 < boot <= now && Ordered(boot, events)
    requires forall i :: 0 <= i < |events| ==> events[i].at <= now
    ensures var t := After(Initial(revertExternal), events);
      t.selfInitiated && t.deadline != 0 ==> t.armedAt <= now && t.deadline == t.armedAt + t.timeout * 60_000_000
  {
    RunKeepsInv(boot, revertExternal, events, now);
  }

  /** The remaining minutes are the exact ceiling, and never exceed the timeout in force when the deadline
      was armed; for a self-initiated boost that is the current timeout. */
  lemma {:induction false} RemainingIsCeiling(boot: int, revertExternal: bool, events: seq<Timed>, now: int)
    requires 0 < boot <= now && Ordered(boot, events)
    requires forall i :: 0 <= i < |events| ==> events[i].at <= now
    ensures var t := After(Initial(revertExternal), events);
      var r := RemainingMinutes(t, now);
      if t.deadline == 0 || t.deadline <= now then r == 0
      else
        && (r - 1) * 60_000_000 < t.deadline - now <= r * 60_000_000
        && r <= t.armedMinutes
        && (t.selfInitiated ==> r <= t.timeout)
  {
    RunKeepsInv(boot, revertExternal, events, now);
  }

  /** Exactly when more minutes remain than the timeout allows: a boost somebody else started is armed, and less
      time has passed since than the minutes by which the timeout was lowered after the arming. */
  lemma {:induction false} RemainingExceedsTimeoutExactly(
    boot: int, revertExternal: bool, events: seq<Timed>, now: int)
    requires 0 < boot <= now && Ordered(boot, events)
    requires forall i :: 0 <= i < |events| ==> events[i].at <= now
    ensures var t := After(Initial(revertExternal), events);
      RemainingMinutes(t, now) > t.timeout <==>
      t.deadline != 0 && !t.selfInitiated && now - t.armedAt < (t.armedMinutes - t.timeout) * 60_000_000
  {
    RunKeepsInv(boot, revertExternal, events, now);
  }

  /** For a boost somebody else started the current timeout is no bound: lowering it does not re-arm the
      deadline. */
  lemma ExternalRemainingExceedsTimeout()
    ensures var events := [Timed(Poll(Some(4), None), 1), Timed(SetTimeout(10), 1)];
      var t := After(Initial(true), events);
      Ordered(1, events) && t.timeout == 10 && RemainingMinutes(t, 1) == 60
  {
    var events := [Timed(Poll(Some(4), None), 1), Timed(SetTimeout(10), 1)];
    assert events[..1] == [Timed(Poll(Some(4), None), 1)];
    assert events[..1][..0] == [];
    var t0 := Initial(true);
    assert After(t0, []) == t0;
    assert After(t0, events[..1]) == Arm(t0, 1);
  }

  /** A boost is never reverted early: when the poll sends its revert, the full time the deadline was armed
      with has passed since, which for a self-initiated boost is the current timeout. */
  lemma NoEarlyRevert(boot: int, revertExternal: bool, events: seq<Timed>, now: int, observed: Option<int>)
    requires 0 < boot <= now && Ordered(boot, events)
    requires forall i :: 0 <= i < |events| ==> events[i].at <= now
    requires RevertDue(After(Initial(revertExternal), events), observed, now)
    ensures var t := After(Initial(revertExternal), events);
      && now - t.armedAt >= t.armedMinutes * 60_000_000
      && (t.selfInitiated ==> now - t.armedAt >= t.timeout * 60_000_000)
      && RemainingMinutes(t, now) == 0
  {
    RunKeepsInv(boot, revertExternal, events, now);
  }

  /** The polls see the mode the boost set, or fail to read it. */
  predicate SeesBoost(e: Timed) {
    e.event.Poll? && e.event.observed != Some(MODE_AUTO)
  }

  /** Poll `i` sends a revert. */
  predicate RevertsAt(t: Timer, polls: seq<Timed>, i: nat)
    requires i < |polls|
  {
    polls[i].event.Poll? && RevertDue(After(t, polls[..i]), polls[i].event.observed, polls[i].at)
  }

  /** Until a revert is due, polls leave an armed timer alone. */
  lemma {:induction false} ArmedUntilDue(t: Timer, polls: seq<Timed>)
    requires t.deadline != 0 && forall e <- polls :: SeesBoost(e)
    ensures (exists i :: 0 <= i < |polls| && RevertsAt(t, polls, i)) || After(t, polls) == t
    decreases |polls|
  {
    if polls == [] {
    } else {
      var last := |polls| - 1;
      var front := polls[..last];
      ArmedUntilDue(t, front);
      if i :| 0 <= i < |front| && RevertsAt(t, front, i) {
        assert front[..i] == polls[..i];
        assert RevertsAt(t, polls, i);
      } else {
        assert SeesBoost(polls[last]);
        assert After(t, polls[..last]) == t;
        if RevertDue(t, polls[last].event.observed, polls[last].at) {
          assert RevertsAt(t, polls, last);
        }
      }
    }
  }

  /** A poll that sees a running boost it may revert leaves a deadline behind, unless it sends the revert. */
  lemma PollArms(t: Timer, observed: Option<int>, readBack: Option<int>, now: int)
    requires 0 < now && observed.Some? && observed.value != MODE_AUTO
    requires t.timeout > 0 && (t.selfInitiated || t.revertExternal)
    ensures RevertDue(t, observed, now) || AfterPoll(t, observed, readBack, now).deadline != 0
  {
  }

  /** A boost is not reverted late either: after any run that left a deadline, with nothing but polls that keep
      seeing the boost, a revert has been sent by the first poll that comes the full time after the deadline
      was armed: the minutes it was armed with, which for a self-initiated boost are the current timeout. */
  lemma RevertIsNotLate(boot: int, revertExternal: bool, events: seq<Timed>, now: int, polls: seq<Timed>)
    requires 0 < boot <= now && Ordered(boot, events)
    requires forall i :: 0 <= i < |events| ==> events[i].at <= now
    requires polls != [] && forall e <- polls :: SeesBoost(e)
    requires polls[|polls| - 1].event.Poll? && polls[|polls| - 1].event.observed.Some?
    requires var t := After(Initial(revertExternal), events);
      && t.deadline != 0 && t.timeout > 0 && (t.selfInitiated || t.revertExternal)
      && polls[|polls| - 1].at - t.armedAt >= t.armedMinutes * 60_000_000
    ensures exists i :: 0 <= i < |polls| && RevertsAt(After(Initial(revertExternal), events), polls, i)
  {
    var t, last := After(Initial(revertExternal), events), |polls| - 1;
    RunKeepsInv(boot, revertExternal, events, now);
    ArmedUntilDue(t, polls[..last]);
    assert SeesBoost(polls[last]);
    if i :| 0 <= i < |polls[..last]| && RevertsAt(t, polls[..last], i) {
      assert polls[..last][..i] == polls[..i];
      assert RevertsAt(t, polls, i);
    } else {
      assert RevertsAt(t, polls, last);
    }
  }

  /** What a command does: if the mode read back, or the one commanded when the read fails, is AUTO (1), deadline and
      ownership are cleared; otherwise the boost is self-initiated from now on and armed with the current timeout,
      if there is one. */
  lemma CommandExactly(t: Timer, mode: int, readBack: Option<int>, now: int)
    ensures var t' := Next(t, Command(mode, readBack), now);
      var auto := if readBack.Some? then readBack.value == 1 else mode == 1;
      && t'.timeout == t.timeout && t'.revertExternal == t.revertExternal
      && (t'.selfInitiated <==> !auto)
      && t'.deadline == if !auto && t.timeout > 0 then now + t.timeout * 60_000_000 else 0
  {
  }

  /** What a poll does: nothing when it cannot read the mode; AUTO clears; a running boost it may revert is armed if
      it is not, left alone before the deadline, and from then on reverted, after which the mode read back decides. */
  lemma PollExactly(t: Timer, observed: Option<int>, readBack: Option<int>, now: int)
    ensures var t' := Next(t, Poll(observed, readBack), now);
      && t'.timeout == t.timeout && t'.revertExternal == t.revertExternal
      && if observed == Some(1) then !t'.selfInitiated && t'.deadline == 0
         else if observed.None? || t.timeout == 0 || !(t.selfInitiated || t.revertExternal) then t' == t
         else if t.deadline == 0 then
           t'.selfInitiated == t.selfInitiated && t'.deadline == now + t.timeout * 60_000_000
         else if now < t.deadline || (readBack.Some? && readBack.value != 1) then t' == t
         else !t'.selfInitiated && t'.deadline == 0
    ensures RevertDue(t, observed, now) <==>
            && observed.Some? && observed.value != 1 && t.timeout > 0 && (t.selfInitiated || t.revertExternal)
            && t.deadline != 0 && t.deadline <= now
  {
  }

  /** What a change of the timeout does. */
  lemma SetTimeoutExactly(t: Timer, minutes: int, now: int)
    ensures var t' := Next(t, SetTimeout(minutes), now);
      if 0 <= minutes <= 240 then
        && t'.timeout == minutes && t'.selfInitiated == t.selfInitiated && t'.revertExternal == t.revertExternal
        && t'.deadline == (
             if !t.selfInitiated || t.deadline == 0 then t.deadline
             else if minutes > 0 then now + minutes * 60_000_000 else 0)
      else t' == t
  {
  }

  lemma AfterAppend(t: Timer, events: seq<Timed>, e: Timed)
    ensures After(t, events + [e]) == Next(After(t, events), e.event, e.at)
  {
    assert (events + [e])[..|events|] == events;
  }

  /** From the command to the revert: after any run, a commanded boost that keeps being seen is reverted by the first
      poll that reads the mode the timeout later. */
  lemma CommandedBoostIsReverted(
    boot: int, revertExternal: bool, events: seq<Timed>, now: int, mode: int, readBack: Option<int>,
    polls: seq<Timed>)
    requires 0 < boot <= now && Ordered(boot, events)
    requires forall i :: 0 <= i < |events| ==> events[i].at <= now
    requires if readBack.Some? then readBack.value != 1 else mode != 1
    requires polls != [] && forall e <- polls :: SeesBoost(e)
    requires polls[|polls| - 1].event.Poll? && polls[|polls| - 1].event.observed.Some?
    requires var timeout := After(Initial(revertExternal), events).timeout;
      timeout > 0 && polls[|polls| - 1].at >= now + timeout * 60_000_000
    ensures var t := After(Initial(revertExternal), events + [Timed(Command(mode, readBack), now)]);
      exists i :: 0 <= i < |polls| && RevertsAt(t, polls, i)
  {
    hide After;
    var command := Timed(Command(mode, readBack), now);
    AfterAppend(Initial(revertExternal), events, command);
    RevertIsNotLate(boot, revertExternal, events + [command], now, polls);
  }

  /** The same for a boost that somebody else started, from the first poll that sees it. */
  lemma SeenBoostIsReverted(
    boot: int, events: seq<Timed>, now: int, observed: Option<int>, readBack: Option<int>, polls: seq<Timed>)
    requires 0 < boot <= now && Ordered(boot, events)
    requires forall i :: 0 <= i < |events| ==> events[i].at <= now
    requires observed.Some? && observed.value != 1
    requires polls != [] && forall e <- polls :: SeesBoost(e)
    requires polls[|polls| - 1].event.Poll? && polls[|polls| - 1].event.observed.Some?
    requires var t := After(Initial(true), events);
      t.timeout > 0 && t.deadline == 0 && polls[|polls| - 1].at >= now + t.timeout * 60_000_000
    ensures var t := After(Initial(true), events + [Timed(Poll(observed, readBack), now)]);
      exists i :: 0 <= i < |polls| && RevertsAt(t, polls, i)
  {
    hide After;
    var seen := Timed(Poll(observed, readBack), now);
    AfterAppend(Initial(true), events, seen);
    RevertExternalStays(events);
    RevertIsNotLate(boot, true, events + [seen], now, polls);
  }

  lemma {:induction false} RevertExternalStays(events: seq<Timed>)
    ensures After(Initial(true), events).revertExternal
    decreases |events|
  {
    if events == [] {
    } else {
      RevertExternalStays(events[..|events| - 1]);
    }
  }

  /** Before the first change the timeout is an hour. */
  lemma DefaultTimeout(revertExternal: bool)
    ensures var t := Initial(revertExternal);
      t.timeout == 60 && !t.selfInitiated && t.deadline == 0 && t.revertExternal == revertExternal
  {
  }

  /** Observing AUTO, by the poll or by reading back after a command, clears deadline and ownership. */
  lemma AutoClears(t: Timer, e: Event, now: int)
    requires match e
      case Command(mode, readBack) => readBack == Some(MODE_AUTO) || (readBack.None? && mode == MODE_AUTO)
      case Poll(observed, _) => observed == Some(MODE_AUTO)
      case SetTimeout(_) => false
    ensures var t' := Next(t, e, now);
      t'.deadline == 0 && !t'.selfInitiated && t'.timeout == t.timeout && RemainingMinutes(t', now) == 0
  {
  }

  /** The variables, updated in place by the request handlers and the poll. */
  class Controller {
    var timeout: nat
    var revertExternal: bool
    var selfInitiated: bool
    var deadline: int
    ghost var armedAt: int
    ghost var armedMinutes: nat

    ghost function Value(): Timer
      reads this
    {
      Timer(timeout, revertExternal, selfInitiated, deadline, armedAt, armedMinutes)
    }

    constructor (revertExternal: bool)
      ensures Value() == Initial(revertExternal)
    {
      timeout, this.revertExternal, selfInitiated, deadline := TIMEOUT_DEFAULT_MIN, revertExternal, false, 0;
      armedAt, armedMinutes := 0, 0;
    }

    method ArmDeadline(now: int)
      modifies this
      ensures Value() == ArmOrClear(old(Value()), now)
    {
      if timeout > 0 {
        deadline := now + timeout * MINUTE_US;
        armedAt, armedMinutes := now, timeout;
      } else {
        deadline := 0;
      }
    }

    /** `boost_apply`; nothing happens before the device is ready. */
    method SetMode(mode: int, bySelf: bool, ready: bool, readBack: Option<int>, now: int)
      modifies this
      ensures Value() == if ready then ApplyMode(old(Value()), mode, bySelf, readBack, now) else old(Value())
    {
      if !ready {
        return;
      }
      var actual := mode;
      if readBack.Some? {
        actual := readBack.value;
      }
      if actual == MODE_AUTO {
        selfInitiated, deadline := false, 0;
      } else if bySelf {
        selfInitiated := true;
        ArmDeadline(now);
      }
    }

    /** `api_boost_timeout_post_handler` and its MQTT twin. */
    method ChangeTimeout(minutes: int, now: int) returns (accepted: bool)
      modifies this
      ensures accepted <==> 0 <= minutes <= 240
      ensures Value() == AfterSetTimeout(old(Value()), minutes, now)
    {
      if minutes < 0 || minutes > TIMEOUT_MAX_MIN {
        return false;
      }
      timeout := minutes;
      if selfInitiated && deadline != 0 {
        ArmDeadline(now);
      }
      return true;
    }

    /** The Boost part of `mqtt_state_task`. */
    method PollMode(observed: Option<int>, readBack: Option<int>, now: int) returns (reverted: bool)
      modifies this
      ensures Value() == AfterPoll(old(Value()), observed, readBack, now)
      ensures reverted <==> RevertDue(old(Value()), observed, now)
    {
      reverted := false;
      if observed.None? {
        return;
      }
      if observed.value == MODE_AUTO {
        selfInitiated, deadline := false, 0;
      } else if timeout > 0 && (selfInitiated || revertExternal) {
        if deadline == 0 {
          ArmDeadline(now);
        } else if now >= deadline {
          reverted := true;
          SetMode(MODE_AUTO, false, true, readBack, now);
        }
      }
    }
  }
}
