/** The worker's transaction engine: the reply handlers, the single-slot transaction state machine they
    share with the protocol stack, the pump loop that waits for an answer, and the health it drives. */
module Transactions {
  import opened Wrappers
  import opened Octets
  import opened Addresses
  import Tags
  import AppData

  const OFFLINE_CONSECUTIVE_TIMEOUTS := 3
  const MAX_APDU := 1476

  datatype Status = StatusOk | StatusTimeout | StatusError | StatusAbort | StatusReject

  datatype Health = Online | Degraded | Offline

  /** A received PDU as `apdu_handler` dispatches it. `OtherService` stands for an ack of a service the
      worker does not use, or an error it has no handler for or cannot decode. */
  datatype Pdu =
    | ReadAck(src: Address, id: Octet, data: Option<Bytes>)
    | WriteAck(src: Address, id: Octet)
    | ErrorReply(src: Address, id: Octet, errorClass: nat, errorCode: nat)
    | AbortReply(src: Address, id: Octet, reason: Octet)
    | RejectReply(src: Address, id: Octet, reason: Octet)
    | OtherService(src: Address, id: Octet)
    | Unrelated

  /** One turn of the pump loop: what was received, and whether the stack's timer gave up in this turn. */
  datatype Round = Round(pdu: Option<Pdu>, timerGivesUp: bool)

  /** What the last refusals of each kind said. */
  datatype Reasons = Reasons(errorClass: Octet, errorCode: Octet, abortReason: Octet, rejectReason: Octet)

  /** The one decoded value that all reads share: what the last acknowledgement that carried a value left there, or
      something no helper can use after a failed decoding. */
  datatype Last = Value(value: AppData.AppValue) | Spoiled

  /** The file-level state. The stack has one transaction slot: `slotId` 0 is a free slot, `slotIdle` with
      a nonzero id is a request the stack gave up on. */
  datatype Link = Link(
    target: Address, invokeId: Octet,
    received: bool, errored: bool, status: Status, raw: Bytes,
    slotId: Octet, slotIdle: bool,
    health: Health, timeouts: nat, reasons: Reasons, last: Last)

  predicate FromTarget(l: Link, src: Address, id: Octet) {
    Same(l.target, src) && id == l.invokeId
  }

  /** `tsm_free_invoke_id` */
  function FreeSlot(l: Link, id: Octet): Link {
    if l.slotId == id then l.(slotId := 0, slotIdle := true) else l
  }

  function Refuse(l: Link, status: Status): Link {
    l.(errored := true, status := status)
  }

  predicate IsRefusal(p: Pdu) {
    p.ErrorReply? || p.AbortReply? || p.RejectReply?
  }

  function RefusalStatus(p: Pdu): Status
    requires IsRefusal(p)
  {
    if p.ErrorReply? then StatusError else if p.AbortReply? then StatusAbort else StatusReject
  }

  /** Error class and code are cut to an octet. */
  function NoteReason(l: Link, p: Pdu): Link {
    match p
    case ErrorReply(_, _, errorClass, errorCode) =>
      l.(reasons := l.reasons.(errorClass := errorClass % 256, errorCode := errorCode % 256))
    case AbortReply(_, _, reason) => l.(reasons := l.reasons.(abortReason := reason))
    case RejectReply(_, _, reason) => l.(reasons := l.reasons.(rejectReason := reason))
    case _ => l
  }

  /** What decoding `data` leaves in the shared value: nothing is written when there are no octets, or no
      application tag. */
  function Overwrite(last: Last, data: Bytes): Last {
    match AppData.Decode(data)
    case Decoded(item) => Value(item.value)
    case NothingThere => last
    case Malformed =>
      var tag := Tags.DecodeTag(data);
      if tag.Some? && tag.value.value.class_ == Tags.Application then Spoiled else last
  }

  /** `worker_read_property_ack_handler` */
  function TakeReadAck(l: Link, data: Option<Bytes>): Link {
    if data.None? then Refuse(l, StatusError)
    else
      var l' := l.(raw := data.value[..Min(|data.value|, MAX_APDU)], last := Overwrite(l.last, data.value));
      if AppData.Decode(data.value).Malformed? then Refuse(l', StatusError)
      else l'.(received := true, status := StatusOk)
  }

  /** The handler registered for the PDU, which looks at sender and invoke id first. */
  function Register(l: Link, p: Pdu): Link {
    if p.Unrelated? || !FromTarget(l, p.src, p.id) then l
    else if p.ReadAck? then TakeReadAck(l, p.data)
    else if p.WriteAck? then l.(received := true, status := StatusOk)
    else if IsRefusal(p) then NoteReason(Refuse(l, RefusalStatus(p)), p)
    else l
  }

  /** The handler, then the stack frees the slot of that invoke id: the handler checks the sender, the stack
      does not. */
  function Handle(l: Link, p: Pdu): Link {
    if p.Unrelated? then l else FreeSlot(Register(l, p), p.id)
  }

  /** Receiving and the stack's timer, in the order of the loop body. */
  function Pump(l: Link, r: Round): Link {
    var l' := if r.pdu.Some? then Handle(l, r.pdu.value) else l;
    if r.timerGivesUp && l'.slotId != 0 then l'.(slotIdle := true) else l'
  }

  /** How a wait ends. */
  datatype Ending = NotSent | Answered | Refused(status: Status) | SlotGone | GivenUp | Expired

  /** The tests after each turn, in the order of the loop body. */
  function Check(l: Link): Option<Ending> {
    if l.received then Some(Answered)
    else if l.errored then Some(Refused(l.status))
    else if l.slotId != l.invokeId then Some(SlotGone)
    else if l.slotIdle then Some(GivenUp)
    else None
  }

  function OneMoreTimeout(l: Link): Link {
    var n := (l.timeouts + 1) % 0x1_0000_0000;
    l.(timeouts := n,
       health := if n >= OFFLINE_CONSECUTIVE_TIMEOUTS && l.health != Offline then Offline
                 else if l.health == Online then Degraded else l.health)
  }

  /** What the loop does before it returns. */
  function Conclude(l: Link, e: Ending): Link {
    match e
    case NotSent => l
    case Answered => l.(timeouts := 0, health := Online)
    case Refused(_) => l
    case SlotGone => l.(status := StatusTimeout)
    case GivenUp => FreeSlot(l, l.invokeId).(status := StatusTimeout)
    case Expired => OneMoreTimeout(FreeSlot(l, l.invokeId).(status := StatusTimeout))
  }

  function Await(l: Link, rounds: seq<Round>): (r: (Link, Ending)) {
    if rounds == [] then (Conclude(l, Expired), Expired)
    else
      var l' := Pump(l, rounds[0]);
      match Check(l')
      case Some(e) => (Conclude(l', e), e)
      case None => Await(l', rounds[1..])
  }

  /** The preamble of `execute_worker_read`, `_write` and `_probe`: `sentId` is what the send returned,
      zero when nothing was sent. */
  function Start(l: Link, sentId: Octet): Link {
    var l' := l.(received := false, errored := false, status := StatusTimeout, invokeId := sentId);
    if sentId == 0 then l' else l'.(slotId := sentId, slotIdle := false)
  }

  function Transact(l: Link, sentId: Octet, rounds: seq<Round>): (Link, Ending) {
    if sentId == 0 then (Start(l, 0), NotSent) else Await(Start(l, sentId), rounds)
  }

  /** The worker task's own state, updated in place by the handlers and the loop. */
  class Engine {
    var target: Address
    var invokeId: Octet
    var received: bool
    var errored: bool
    var status: Status
    var raw: Bytes
    var slotId: Octet
    var slotIdle: bool
    var health: Health
    var timeouts: nat
    var reasons: Reasons
    var last: Last

    function Snapshot(): Link
      reads this
    {
      Link(target, invokeId, received, errored, status, raw, slotId, slotIdle, health, timeouts, reasons, last)
    }

    constructor (target: Address)
      ensures Snapshot() == Link(target, 0, false, false, StatusOk, [], 0, true, Online, 0, Reasons(0, 0, 0, 0),
                                 Value(AppData.Null))
    {
      this.target, invokeId, received, errored, status, raw := target, 0, false, false, StatusOk, [];
      slotId, slotIdle, health, timeouts := 0, true, Online, 0;
      reasons, last := Reasons(0, 0, 0, 0), Value(AppData.Null);
    }

    /** `worker_read_property_ack_handler`, for the target's reply. */
    method OnReadAck(data: Option<Bytes>)
      modifies this
      ensures Snapshot() == TakeReadAck(old(Snapshot()), data)
    {
      hide AppData.Decode, Overwrite;
      if data == None {
        errored, status := true, StatusError;
        return;
      }
      raw, last := data.value[..Min(|data.value|, MAX_APDU)], Overwrite(last, data.value);
      if AppData.Decode(data.value).Malformed? {
        errored, status := true, StatusError;
        return;
      }
      received, status := true, StatusOk;
    }

    /** `worker_error_handler`, `worker_abort_handler` and `worker_reject_handler`, for the target's reply. */
    method OnRefusal(p: Pdu)
      requires IsRefusal(p)
      modifies this
      ensures Snapshot() == NoteReason(Refuse(old(Snapshot()), RefusalStatus(p)), p)
    {
      errored, status := true, RefusalStatus(p);
      match p {
        case ErrorReply(_, _, errorClass, errorCode) =>
          reasons := reasons.(errorClass := errorClass % 256, errorCode := errorCode % 256);
        case AbortReply(_, _, reason) => reasons := reasons.(abortReason := reason);
        case RejectReply(_, _, reason) => reasons := reasons.(rejectReason := reason);
      }
    }

    /** `apdu_handler` with the worker's handlers registered. */
    method HandlePdu(p: Pdu)
      modifies this
      ensures Snapshot() == Handle(old(Snapshot()), p)
    {
      hide Same, TakeReadAck, NoteReason, Refuse;
      if p.Unrelated? {
        return;
      }
      if Same(target, p.src) && p.id == invokeId {
        if p.ReadAck? {
          OnReadAck(p.data);
        } else if p.WriteAck? {
          received, status := true, StatusOk;
        } else if IsRefusal(p) {
          OnRefusal(p);
        }
      }
      FreeInvokeId(p.id);
    }

    /** `tsm_free_invoke_id` */
    method FreeInvokeId(id: Octet)
      modifies this
      ensures Snapshot() == FreeSlot(old(Snapshot()), id)
    {
      if slotId == id {
        slotId, slotIdle := 0, true;
      }
    }

    /** The receiving half of a turn. */
    method PumpOnce(r: Round)
      modifies this
      ensures Snapshot() == Pump(old(Snapshot()), r)
    {
      hide Handle;
      if r.pdu.Some? {
        HandlePdu(r.pdu.value);
      }
      if r.timerGivesUp && slotId != 0 {
        slotIdle := true;
      }
    }

    /** `wait_for_worker_transaction`; `rounds` is what the network and the timer do, one per turn. */
    method Wait(timeoutMs: nat, rounds: seq<Round>) returns (ok: bool, ghost ending: Ending)
      requires invokeId != 0
      requires |rounds| == (if timeoutMs != 0 then timeoutMs else 800) / 20 + 1
      modifies this
      ensures (Snapshot(), ending) == Await(old(Snapshot()), rounds)
      ensures ok <==> ending == Answered
    {
      hide Pump;
      for i := 0 to |rounds|
        invariant Await(old(Snapshot()), rounds) == Await(Snapshot(), rounds[i..])
      {
        assert rounds[i..][1..] == rounds[i + 1..];
        PumpOnce(rounds[i]);
        if received {
          timeouts := 0;
          if health != Online {
            health := Online;
          }
          return true, Answered;
        }
        if errored {
          return false, Refused(status);
        }
        if slotId != invokeId {
          status := StatusTimeout;
          return false, SlotGone;
        }
        if slotIdle {
          slotId, slotIdle := 0, true;
          status := StatusTimeout;
          return false, GivenUp;
        }
      }
      Expire();
      return false, Expired;
    }

    /** What `wait_for_worker_transaction` does behind its loop. */
    method Expire()
      modifies this
      ensures Snapshot() == Conclude(old(Snapshot()), Expired)
    {
      if slotId == invokeId {
        slotId, slotIdle := 0, true;
      }
      status := StatusTimeout;
      timeouts := (timeouts + 1) % 0x1_0000_0000;
      if timeouts >= OFFLINE_CONSECUTIVE_TIMEOUTS && health != Offline {
        health := Offline;
      } else if health == Online {
        health := Degraded;
      }
    }

    /** What `execute_worker_read`, `_write` and `_probe` share; `response` is what a read copies into its response:
        the shared value and the octets of the last acknowledgement. */
    method Run(sentId: Octet, timeoutMs: nat, rounds: seq<Round>)
      returns (ok: bool, response: Option<(Last, Bytes)>, ghost ending: Ending)
      requires |rounds| == (if timeoutMs != 0 then timeoutMs else 800) / 20 + 1
      modifies this
      ensures (Snapshot(), ending) == Transact(old(Snapshot()), sentId, rounds)
      ensures ok <==> ending == Answered
      ensures response == if ok then Some((last, raw)) else None
    {
      hide Await;
      response := None;
      received, errored, status := false, false, StatusTimeout;
      invokeId := sentId;
      if sentId == 0 {
        return false, None, NotSent;
      }
      slotId, slotIdle := sentId, false;
      ok, ending := Wait(timeoutMs, rounds);
      if ok {
        response := Some((last, raw));
      }
    }
  }

  /** What a reply from the target with the current invoke id means for the transaction. */
  function Verdict(p: Pdu): Ending {
    match p
    case ReadAck(_, _, data) =>
      if data.None? || AppData.Decode(data.value).Malformed? then Refused(StatusError) else Answered
    case WriteAck(_, _) => Answered
    case ErrorReply(_, _, _, _) => Refused(StatusError)
    case AbortReply(_, _, _) => Refused(StatusAbort)
    case RejectReply(_, _, _) => Refused(StatusReject)
    case _ => SlotGone
  }

  /** What one turn does to the transaction under way, looking only at the turn. */
  function Decisive(target: Address, id: Octet, r: Round): Option<Ending> {
    if r.pdu.None? || r.pdu.value.Unrelated? || r.pdu.value.id != id then
      if r.timerGivesUp then Some(GivenUp) else None
    else if Same(target, r.pdu.value.src) then Some(Verdict(r.pdu.value))
    else Some(SlotGone)
  }

  /** The first turn that decides, or expiry. */
  function FirstDecisive(target: Address, id: Octet, rounds: seq<Round>): Ending {
    if rounds == [] then Expired
    else match Decisive(target, id, rounds[0])
      case Some(e) => e
      case None => FirstDecisive(target, id, rounds[1..])
  }

  /** A request is in the air and nothing has come back. */
  predicate Pending(l: Link, target: Address, id: Octet) {
    && l.target == target && l.invokeId == id && id != 0
    && !l.received && !l.errored && l.slotId == id && !l.slotIdle
  }

  /** The state after the handlers ran agrees with the ending a turn decides on. */
  predicate Settled(l: Link, id: Octet, e: Ending) {
    && l.invokeId == id && id != 0
    && (l.slotId == 0 || l.slotId == id)
    && !(l.received && l.errored)
    && (e == Answered <==> l.received)
    && (e == Answered ==> l.status == StatusOk && l.slotId == 0)
    && (e.Refused? ==> l.status == e.status && l.status != StatusOk && l.slotId == 0)
    && (e == SlotGone ==> l.slotId == 0)
  }

  lemma TurnIsDecisive(l: Link, target: Address, id: Octet, r: Round)
    requires Pending(l, target, id)
    ensures var l', d := Pump(l, r), Decisive(target, id, r);
      && Check(l') == d
      && (d == None ==> Pending(l', target, id))
      && (d.Some? ==> Settled(l', id, d.value))
  {
    hide AppData.Decode, Same;
  }

  lemma {:induction false} AwaitFindsFirstDecisive(l: Link, target: Address, id: Octet, rounds: seq<Round>)
    requires Pending(l, target, id)
    ensures var (l', e) := Await(l, rounds);
      && e == FirstDecisive(target, id, rounds)
      && l'.invokeId == id && l'.slotId == 0
      && !(l'.received && l'.errored)
      && (l'.status == StatusOk <==> e == Answered)
      && (e.Refused? ==> l'.status == e.status)
      && (!e.Answered? && !e.Refused? ==> l'.status == StatusTimeout)
    decreases |rounds|
  {
    hide Pump, Decisive;
    if rounds == [] {
    } else {
      TurnIsDecisive(l, target, id, rounds[0]);
      if Decisive(target, id, rounds[0]).None? {
        AwaitFindsFirstDecisive(Pump(l, rounds[0]), target, id, rounds[1..]);
      }
    }
  }

  /** The transaction engine refines a simple reading of the traffic: the outcome is decided by the first
      turn that brings a reply with the current invoke id or a time-out of the stack, and expires
      otherwise. The status is OK exactly for a good ack, received and errored are never both set, and the
      stack's only slot is free again, so the next request is never refused for want of one. */
  lemma {:induction false} TransactionOutcome(l: Link, sentId: Octet, rounds: seq<Round>)
    requires l.slotId == 0
    ensures var (l', e) := Transact(l, sentId, rounds);
      && e == (if sentId == 0 then NotSent else FirstDecisive(l.target, sentId, rounds))
      && l'.slotId == 0
      && !(l'.received && l'.errored)
      && (l'.status == StatusOk <==> e == Answered)
      && (e.Refused? ==> l'.status == e.status)
      && (!e.Answered? && !e.Refused? ==> l'.status == StatusTimeout)
  {
    hide Await, FirstDecisive;
    if sentId != 0 {
      AwaitFindsFirstDecisive(Start(l, sentId), l.target, sentId, rounds);
    }
  }

  predicate GoodAck(target: Address, id: Octet, r: Round) {
    Decisive(target, id, r) == Some(Answered)
  }

  /** Success means that some turn within the allotted ones brought a good ack from the target with the
      current invoke id, and that no earlier turn decided otherwise. */
  lemma {:induction false} AnsweredExactlyByGoodAck(target: Address, id: Octet, rounds: seq<Round>)
    ensures FirstDecisive(target, id, rounds) == Answered <==>
            exists k :: 0 <= k < |rounds| && GoodAck(target, id, rounds[k])
              && forall j :: 0 <= j < k ==> Decisive(target, id, rounds[j]) == None
    decreases |rounds|
  {
    hide Decisive;
    if rounds == [] {
    } else {
      AnsweredExactlyByGoodAck(target, id, rounds[1..]);
      var head := Decisive(target, id, rounds[0]);
      if FirstDecisive(target, id, rounds) == Answered {
        if head.Some? {
          assert GoodAck(target, id, rounds[0]);
        } else {
          var k :| 0 <= k < |rounds[1..]| && GoodAck(target, id, rounds[1..][k])
                   && forall j :: 0 <= j < k ==> Decisive(target, id, rounds[1..][j]) == None;
          assert GoodAck(target, id, rounds[k + 1]);
          assert forall j :: 1 <= j < k + 1 ==> rounds[j] == rounds[1..][j - 1];
        }
      }
      if k :| 0 <= k < |rounds| && GoodAck(target, id, rounds[k])
              && forall j :: 0 <= j < k ==> Decisive(target, id, rounds[j]) == None {
        if k > 0 {
          assert GoodAck(target, id, rounds[1..][k - 1]);
          assert forall j :: 0 <= j < k - 1 ==> rounds[1..][j] == rounds[j + 1];
        }
      }
    }
  }

  /** The PDU that decided the wait, if a PDU did. */
  function Deciding(target: Address, id: Octet, rounds: seq<Round>): Option<Pdu> {
    if rounds == [] then None
    else if Decisive(target, id, rounds[0]).None? then Deciding(target, id, rounds[1..])
    else if rounds[0].pdu.Some? && !rounds[0].pdu.value.Unrelated? && rounds[0].pdu.value.id == id then rounds[0].pdu
    else None
  }

  /** The value an acknowledgement carries; one with an empty list, or of a write, carries none. */
  function CarriedBy(p: Option<Pdu>): Option<AppData.AppValue> {
    if p.Some? && p.value.ReadAck? && p.value.data.Some? && AppData.Decode(p.value.data.value).Decoded?
    then Some(AppData.Decode(p.value.data.value).item.value) else None
  }

  lemma TurnOnLast(l: Link, target: Address, id: Octet, r: Round)
    requires Pending(l, target, id)
    ensures Decisive(target, id, r) == None ==> Pump(l, r).last == l.last
    ensures Decisive(target, id, r) == Some(Answered) ==>
              && r.pdu.Some? && !r.pdu.value.Unrelated? && r.pdu.value.id == id
              && Pump(l, r).last == if CarriedBy(r.pdu).Some? then Value(CarriedBy(r.pdu).value) else l.last
  {
    hide AppData.Decode, Same, Tags.DecodeTag;
  }

  lemma {:induction false} AwaitOnLast(l: Link, target: Address, id: Octet, rounds: seq<Round>)
    requires Pending(l, target, id) && FirstDecisive(target, id, rounds) == Answered
    ensures var p := Deciding(target, id, rounds);
      && p.Some?
      && Await(l, rounds).0.last == if CarriedBy(p).Some? then Value(CarriedBy(p).value) else l.last
    decreases |rounds|
  {
    hide Pump, Decisive, CarriedBy;
    if rounds == [] {
    } else {
      TurnIsDecisive(l, target, id, rounds[0]);
      TurnOnLast(l, target, id, rounds[0]);
      if Decisive(target, id, rounds[0]).None? {
        AwaitOnLast(Pump(l, rounds[0]), target, id, rounds[1..]);
      }
    }
  }

  /** What a successful transaction leaves in the shared value, which a read returns: what the deciding PDU carried,
      or whatever was there before. */
  lemma {:induction false} ValueOfAnswer(l: Link, sentId: Octet, rounds: seq<Round>)
    requires l.slotId == 0 && Transact(l, sentId, rounds).1 == Answered
    ensures var p := Deciding(l.target, sentId, rounds);
      && p.Some?
      && Transact(l, sentId, rounds).0.last == if CarriedBy(p).Some? then Value(CarriedBy(p).value) else l.last
  {
    hide Await, FirstDecisive, CarriedBy, Deciding;
    TransactionOutcome(l, sentId, rounds);
    AwaitOnLast(Start(l, sentId), l.target, sentId, rounds);
  }

  lemma TurnOnRaw(l: Link, target: Address, id: Octet, r: Round)
    requires Pending(l, target, id)
    ensures Decisive(target, id, r) == None ==> Pump(l, r).raw == l.raw
    ensures Decisive(target, id, r) == Some(Answered) ==>
              && r.pdu.Some? && !r.pdu.value.Unrelated? && r.pdu.value.id == id
              && match r.pdu.value
                 case ReadAck(_, _, data) => data.Some? && Pump(l, r).raw == data.value[..Min(|data.value|, 1476)]
                 case WriteAck(_, _) => Pump(l, r).raw == l.raw
                 case _ => false
  {
    hide AppData.Decode, Same, Tags.DecodeTag;
  }

  /** Beside the value, the octets: after a success decided by a read's acknowledgement the response holds its first
      1476 octets, and after one decided by a write's acknowledgement those of an earlier read. */
  lemma {:induction false} RawOfAnswer(l: Link, sentId: Octet, rounds: seq<Round>)
    requires l.slotId == 0 && Transact(l, sentId, rounds).1 == Answered
    ensures var raw := Transact(l, sentId, rounds).0.raw;
      match Deciding(l.target, sentId, rounds)
      case Some(ReadAck(_, _, data)) => data.Some? && raw == data.value[..Min(|data.value|, 1476)]
      case Some(WriteAck(_, _)) => raw == l.raw
      case _ => false
  {
    hide Await, FirstDecisive, Deciding;
    TransactionOutcome(l, sentId, rounds);
    AwaitOnRaw(Start(l, sentId), l.target, sentId, rounds);
  }

  lemma {:induction false} AwaitOnRaw(l: Link, target: Address, id: Octet, rounds: seq<Round>)
    requires Pending(l, target, id) && FirstDecisive(target, id, rounds) == Answered
    ensures match Deciding(target, id, rounds)
      case Some(ReadAck(_, _, data)) => data.Some? && Await(l, rounds).0.raw == data.value[..Min(|data.value|, 1476)]
      case Some(WriteAck(_, _)) => Await(l, rounds).0.raw == l.raw
      case _ => false
    decreases |rounds|
  {
    hide Pump, Decisive;
    if rounds == [] {
    } else {
      TurnIsDecisive(l, target, id, rounds[0]);
      TurnOnRaw(l, target, id, rounds[0]);
      if Decisive(target, id, rounds[0]).None? {
        AwaitOnRaw(Pump(l, rounds[0]), target, id, rounds[1..]);
      }
    }
  }

  /** From the acknowledgement to the page: when the PDU that decides a successful read encodes at most 16 values in at
      most 1476 octets, decoding the response's octets value by value, as the priority-array loop does, gives exactly
      these values. */
  lemma {:induction false} AcknowledgedValuesAreShown(
    l: Link, sentId: Octet, rounds: seq<Round>, vs: seq<AppData.Primitive>)
    requires l.slotId == 0 && |vs| <= 16
    ensures var (l', e) := Transact(l, sentId, rounds);
      var p := Deciding(l.target, sentId, rounds);
      e == Answered && p.Some? && p.value.ReadAck? && p.value.data == Some(AppData.EncodeAll(vs))
      && |AppData.EncodeAll(vs)| <= 1476 ==>
        AppData.DecodeUpTo(l'.raw, 16) == vs
  {
    hide Transact, Deciding, AppData.EncodeAll, AppData.DecodeUpTo;
    if Transact(l, sentId, rounds).1 == Answered {
      RawOfAnswer(l, sentId, rounds);
    }
    AppData.DecodeUpToRoundTrip(vs, 16);
    assert vs[..|vs|] == vs;
    var octets := AppData.EncodeAll(vs);
    assert octets[..|octets|] == octets;
  }

  /** A failed decoding spoils the shared value once it has read an application tag, and only then. */
  lemma FailedDecodingSpoils(last: Last, number: Octet, contextSpecific: bool, len: nat, content: Bytes)
    requires len < 0x1_0000_0000
    requires AppData.Decode(Tags.EncodeTag(number, contextSpecific, len) + content).Malformed?
    ensures Overwrite(last, Tags.EncodeTag(number, contextSpecific, len) + content) ==
            if contextSpecific then last else Spoiled
  {
    hide AppData.Decode, Tags.EncodeTag, Tags.DecodeTag;
    Tags.TagRoundTrip(number, contextSpecific, len, content);
  }

  /** What each reply means, one at a time: status, recorded reasons and ending of a transaction whose first turn
      brings it. */
  lemma RepliesMean(l: Link, id: Octet, eClass: nat, eCode: nat, reason: Octet, more: seq<Round>)
    requires id != 0 && l.slotId == 0
    ensures var (l', e) := Transact(l, id, [Round(Some(ErrorReply(l.target, id, eClass, eCode)), false)] + more);
      && e == Refused(StatusError) && l'.status == StatusError && l'.errored
      && l'.reasons == Reasons(eClass % 256, eCode % 256, l.reasons.abortReason, l.reasons.rejectReason)
    ensures var (l', e) := Transact(l, id, [Round(Some(AbortReply(l.target, id, reason)), false)] + more);
      && e == Refused(StatusAbort) && l'.status == StatusAbort && l'.errored
      && l'.reasons == Reasons(l.reasons.errorClass, l.reasons.errorCode, reason, l.reasons.rejectReason)
    ensures var (l', e) := Transact(l, id, [Round(Some(RejectReply(l.target, id, reason)), false)] + more);
      && e == Refused(StatusReject) && l'.status == StatusReject && l'.errored
      && l'.reasons == Reasons(l.reasons.errorClass, l.reasons.errorCode, l.reasons.abortReason, reason)
  {
    ComparisonsAreEquivalences(l.target, l.target, l.target);
    FirstTurnDecides(l, id, Round(Some(ErrorReply(l.target, id, eClass, eCode)), false), more);
    FirstTurnDecides(l, id, Round(Some(AbortReply(l.target, id, reason)), false), more);
    FirstTurnDecides(l, id, Round(Some(RejectReply(l.target, id, reason)), false), more);
    hide Await, Same;
  }

  lemma FirstTurnDecides(l: Link, id: Octet, r: Round, more: seq<Round>)
    requires id != 0 && Check(Pump(Start(l, id), r)).Some?
    ensures var l' := Pump(Start(l, id), r);
      var e := Check(l').value;
      Transact(l, id, [r] + more) == (Conclude(l', e), e)
  {
    hide Pump, Start, Conclude;
    assert ([r] + more)[0] == r;
  }

  /** The same for acknowledgements the worker cannot use, the stack's time-out, and silence. */
  lemma SilenceMeans(l: Link, id: Octet, data: Bytes, more: seq<Round>)
    requires id != 0 && l.slotId == 0 && AppData.Decode(data).Malformed?
    ensures Transact(l, id, [Round(Some(ReadAck(l.target, id, Some(data))), false)] + more).1 == Refused(StatusError)
    ensures Transact(l, id, [Round(Some(ReadAck(l.target, id, None)), false)] + more).1 == Refused(StatusError)
    ensures Transact(l, id, [Round(Some(OtherService(l.target, id)), false)] + more).1 == SlotGone
    ensures Transact(l, id, [Round(None, true)] + more).1 == GivenUp
    ensures Transact(l, id, []).1 == Expired
    ensures Transact(l, id, [Round(None, false)] + more).1 == Transact(l, id, more).1
    ensures Transact(l, 0, more).1 == NotSent
  {
    hide Await, AppData.Decode, Same;
    ComparisonsAreEquivalences(l.target, l.target, l.target);
    FirstOf(l, id, Round(Some(ReadAck(l.target, id, Some(data))), false), more);
    FirstOf(l, id, Round(Some(ReadAck(l.target, id, None)), false), more);
    FirstOf(l, id, Round(Some(OtherService(l.target, id)), false), more);
    FirstOf(l, id, Round(None, true), more);
    FirstOf(l, id, Round(None, false), more);
    TransactionOutcome(l, id, []);
    TransactionOutcome(l, id, more);
  }

  lemma FirstOf(l: Link, id: Octet, r: Round, more: seq<Round>)
    requires id != 0 && l.slotId == 0
    ensures Transact(l, id, [r] + more).1 ==
            if Decisive(l.target, id, r).Some? then Decisive(l.target, id, r).value
            else FirstDecisive(l.target, id, more)
  {
    hide Transact, Decisive;
    TransactionOutcome(l, id, [r] + more);
    assert ([r] + more)[0] == r && ([r] + more)[1..] == more;
  }

  /** The value a read returns is its own, independent of all earlier reads, if and only if the PDU that decided it
      carries a value. */
  lemma {:induction false} ValueIsOwnExactly(l: Link, sentId: Octet, rounds: seq<Round>)
    requires l.slotId == 0 && Transact(l, sentId, rounds).1 == Answered
    ensures (forall prior: Last ::
               Transact(l.(last := prior), sentId, rounds).0.last == Transact(l, sentId, rounds).0.last)
            <==> CarriedBy(Deciding(l.target, sentId, rounds)).Some?
  {
    hide Transact, CarriedBy, Deciding;
    ValueOfAnswer(l, sentId, rounds);
    forall prior: Last
      ensures Transact(l.(last := prior), sentId, rounds).0.last ==
              if CarriedBy(Deciding(l.target, sentId, rounds)).Some?
              then Value(CarriedBy(Deciding(l.target, sentId, rounds)).value) else prior
    {
      TransactionOutcome(l, sentId, rounds);
      TransactionOutcome(l.(last := prior), sentId, rounds);
      ValueOfAnswer(l.(last := prior), sentId, rounds);
    }
    var other := if l.last == Spoiled then Value(AppData.Null) else Spoiled;
    assert Transact(l.(last := other), sentId, rounds).0.last ==
           if CarriedBy(Deciding(l.target, sentId, rounds)).Some?
           then Value(CarriedBy(Deciding(l.target, sentId, rounds)).value) else other;
  }

  /** An acknowledgement with an empty value, and that of a write, answer a read with the value of an earlier one. */
  lemma ReadAnsweredWithEarlierValue(l: Link, id: Octet)
    requires id != 0 && l.slotId == 0
    ensures var (l', e) := Transact(l, id, [Round(Some(ReadAck(l.target, id, Some([]))), false)]);
      e == Answered && l'.last == l.last
    ensures var (l', e) := Transact(l, id, [Round(Some(WriteAck(l.target, id)), false)]);
      e == Answered && l'.last == l.last
  {
    hide Await;
    ComparisonsAreEquivalences(l.target, l.target, l.target);
    var empty, write := [Round(Some(ReadAck(l.target, id, Some([]))), false)],
                        [Round(Some(WriteAck(l.target, id)), false)];
    assert AppData.Decode([]) == AppData.NothingThere;
    TransactionOutcome(l, id, empty);
    TransactionOutcome(l, id, write);
    ValueOfAnswer(l, id, empty);
    ValueOfAnswer(l, id, write);
  }

  /** The turn without its PDU when that PDU carries another invoke id. */
  function DropOtherIds(id: Octet, r: Round): Round {
    if r.pdu.Some? && !r.pdu.value.Unrelated? && r.pdu.value.id != id then r.(pdu := None) else r
  }

  /** Replies with another invoke id never affect the outcome. */
  lemma {:induction false} OtherIdsAreHarmless(target: Address, id: Octet, rounds: seq<Round>, kept: seq<Round>)
    requires |kept| == |rounds| && forall i :: 0 <= i < |rounds| ==> kept[i] == DropOtherIds(id, rounds[i])
    ensures FirstDecisive(target, id, kept) == FirstDecisive(target, id, rounds)
    decreases |rounds|
  {
    if rounds == [] {
    } else {
      OtherIdsAreHarmless(target, id, rounds[1..], kept[1..]);
    }
  }

  /** Replies from another address are not harmless: the stack frees its slot for any sender, so such a
      reply with the current invoke id ends the wait although the good ack is next in line. */
  lemma ForeignReplyEndsTheWait(l: Link, foreign: Address, id: Octet)
    requires id != 0 && l.slotId == 0 && !Same(l.target, foreign)
    ensures var rounds := [Round(Some(WriteAck(foreign, id)), false), Round(Some(WriteAck(l.target, id)), false)];
      && Transact(l, id, rounds).1 == SlotGone
      && Transact(l, id, rounds[1..]).1 == Answered
  {
    hide Await;
    var rounds := [Round(Some(WriteAck(foreign, id)), false), Round(Some(WriteAck(l.target, id)), false)];
    ComparisonsAreEquivalences(l.target, l.target, l.target);
    TransactionOutcome(l, id, rounds);
    TransactionOutcome(l, id, rounds[1..]);
  }

  /** A reply with the current invoke id from another address. */
  predicate Foreign(target: Address, id: Octet, r: Round) {
    r.pdu.Some? && !r.pdu.value.Unrelated? && r.pdu.value.id == id && !Same(target, r.pdu.value.src)
  }

  /** Such a reply comes before anything that decides. */
  predicate ForeignFirst(target: Address, id: Octet, rounds: seq<Round>) {
    rounds != [] && (
      || Foreign(target, id, rounds[0])
      || (Decisive(target, id, rounds[0]) == None && ForeignFirst(target, id, rounds[1..])))
  }

  function DropForeign(target: Address, id: Octet, r: Round): Round {
    if Foreign(target, id, r) then r.(pdu := None) else r
  }

  /** Exactly when replies from other addresses matter: the outcome is the one without them, unless one of them
      with the current invoke id comes before anything that decides, and then the wait ends in a time-out. */
  lemma {:induction false} ForeignRepliesExactly(target: Address, id: Octet, rounds: seq<Round>, kept: seq<Round>)
    requires |kept| == |rounds| && forall i :: 0 <= i < |rounds| ==> kept[i] == DropForeign(target, id, rounds[i])
    ensures FirstDecisive(target, id, rounds) ==
            if ForeignFirst(target, id, rounds) then SlotGone else FirstDecisive(target, id, kept)
    decreases |rounds|
  {
    hide Same, Verdict;
    if rounds == [] {
    } else {
      ForeignRepliesExactly(target, id, rounds[1..], kept[1..]);
    }
  }

  /** What the end of one wait does to the health and its 32-bit counter. */
  function HealthStep(h: Health, n: nat, e: Ending): (Health, nat) {
    match e
    case Answered => (Online, 0)
    case Expired =>
      var n' := (n + 1) % 0x1_0000_0000;
      (if n' >= OFFLINE_CONSECUTIVE_TIMEOUTS && h != Offline then Offline
       else if h == Online then Degraded else h, n')
    case _ => (h, n)
  }

  /** Health as a function of how the waits so far ended, oldest first. */
  function HealthAfter(endings: seq<Ending>): (Health, nat) {
    if endings == [] then (Online, 0)
    else
      var before := HealthAfter(endings[..|endings| - 1]);
      HealthStep(before.0, before.1, endings[|endings| - 1])
  }

  lemma HealthAfterAppend(endings: seq<Ending>, e: Ending)
    ensures HealthAfter(endings + [e]) == HealthStep(HealthAfter(endings).0, HealthAfter(endings).1, e)
  {
    assert (endings + [e])[..|endings|] == endings;
  }

  /** How many waits expired since the last good reply. */
  function ExpiredSinceAnswer(endings: seq<Ending>): nat {
    if endings == [] then 0
    else match endings[|endings| - 1]
      case Answered => 0
      case Expired => ExpiredSinceAnswer(endings[..|endings| - 1]) + 1
      case _ => ExpiredSinceAnswer(endings[..|endings| - 1])
  }

  function HealthFor(expired: nat): Health {
    if expired == 0 then Online else if expired < OFFLINE_CONSECUTIVE_TIMEOUTS then Degraded else Offline
  }

  lemma ExpiryStep(k: nat)
    ensures HealthStep(HealthFor(k), k % 0x1_0000_0000, Expired) == (HealthFor(k + 1), (k + 1) % 0x1_0000_0000)
  {
  }

  /** Over every run: health is ONLINE, DEGRADED or OFFLINE exactly when 0, 1 or 2, or at least 3 waits
      have expired since the last good reply. This survives the wrap of the 32-bit counter. */
  lemma {:induction false} HealthCountsExpiries(endings: seq<Ending>)
    ensures var k := ExpiredSinceAnswer(endings);
      && HealthAfter(endings) == (HealthFor(k), k % 0x1_0000_0000)
      && HealthFor(k) == if k == 0 then Online else if k <= 2 then Degraded else Offline
    decreases |endings|
  {
    if endings == [] {
    } else {
      var before := endings[..|endings| - 1];
      HealthCountsExpiries(before);
      hide HealthFor;
      if endings[|endings| - 1].Expired? {
        hide HealthStep;
        ExpiryStep(ExpiredSinceAnswer(before));
      } else if endings[|endings| - 1].Answered? {
        OnlineAtZero();
      }
    }
  }

  lemma OnlineAtZero()
    ensures HealthFor(0) == Online
  {
  }

  lemma {:induction false} AwaitDrivesHealth(l: Link, target: Address, id: Octet, rounds: seq<Round>)
    requires Pending(l, target, id)
    ensures var (l', e) := Await(l, rounds);
      (l'.health, l'.timeouts) == HealthStep(l.health, l.timeouts, e)
    decreases |rounds|
  {
    hide Pump, Decisive;
    if rounds == [] {
    } else {
      TurnIsDecisive(l, target, id, rounds[0]);
      HandlingKeepsHealth(l, rounds[0]);
      if Check(Pump(l, rounds[0])).None? {
        AwaitDrivesHealth(Pump(l, rounds[0]), target, id, rounds[1..]);
      }
    }
  }

  predicate SameHealth(a: Link, b: Link) {
    a.health == b.health && a.timeouts == b.timeouts
  }

  lemma AckKeepsHealth(l: Link, data: Option<Bytes>)
    ensures SameHealth(TakeReadAck(l, data), l)
  {
    hide AppData.Decode;
  }

  lemma FreeingKeepsHealth(l: Link, id: Octet)
    ensures SameHealth(FreeSlot(l, id), l)
  {
  }

  lemma HandlingKeepsHealth(l: Link, r: Round)
    ensures SameHealth(Pump(l, r), l)
  {
    hide FromTarget, TakeReadAck, FreeSlot;
    if r.pdu.Some? && !r.pdu.value.Unrelated? {
      if r.pdu.value.ReadAck? {
        AckKeepsHealth(l, r.pdu.value.data);
        FreeingKeepsHealth(TakeReadAck(l, r.pdu.value.data), r.pdu.value.id);
      }
      forall l' | SameHealth(l', l) ensures SameHealth(FreeSlot(l', r.pdu.value.id), l) {
        FreeingKeepsHealth(l', r.pdu.value.id);
      }
    }
  }

  /** Each transaction moves the health by its ending alone. */
  lemma TransactionDrivesHealth(l: Link, sentId: Octet, rounds: seq<Round>)
    requires l.slotId == 0
    ensures var (l', e) := Transact(l, sentId, rounds);
      (l'.health, l'.timeouts) == HealthStep(l.health, l.timeouts, e)
  {
    hide Await;
    if sentId != 0 {
      AwaitDrivesHealth(Start(l, sentId), l.target, sentId, rounds);
    }
  }
}
