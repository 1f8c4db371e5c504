/** End-to-end coherence of the typed read and write helpers: what a successful read may return, when the
    device also changes values on its own. Helper calls do not overlap one another (the target stays
    fixed), but the device and the clock move during a call. */
module Coherence {
  import opened Wrappers
  import opened ReadCache

  /** The application values the typed helpers look at; a property with an empty list has none. */
  datatype DeviceValue =
    WireReal(bits: int) | WireEnumerated(n: nat) | WireUnsigned(u: nat) | WireOther | WireNothing

  /** What a typed read makes of the device's answer: the tag must fit, an enumerated is reduced to
      zero or not, and a 64-bit unsigned is cut to the 32 bits of `unsigned`. */
  function Interpret(kind: Kind, dv: DeviceValue): Option<Value> {
    match (kind, dv)
    case (KindReal, WireReal(bits)) => Some(Real(bits))
    case (KindBool, WireEnumerated(n)) => Some(Bool(n != 0))
    case (KindMsv, WireUnsigned(u)) => Some(Msv(u % 0x1_0000_0000))
    case _ => None
  }

  lemma InterpretKeepsKind(kind: Kind, dv: DeviceValue)
    ensures Interpret(kind, dv).Some? ==> KindOf(Interpret(kind, dv).value) == kind
  {
  }

  /** A read on its way back: the worker's response holds `answer`, which came when the clock showed `since`. */
  datatype Pending = Pending(key: Key, kind: Kind, answer: DeviceValue, since: int)

  /** `last` is the one decoded value that all of the worker's reads share. */
  datatype Sys =
    Sys(clock: int, device: map<Key, DeviceValue>, table: Table, pending: Option<Pending>, last: DeviceValue)

  datatype Action =
    | Pass(us: nat)
    | DeviceSets(key: Key, dv: DeviceValue)
    | CachedRead(key: Key, kind: Kind)
    | AskDevice(key: Key, kind: Kind, simpleAck: bool)
    | OtherTraffic(left: DeviceValue)
    | Answered
    | ReadFails
    | Write(key: Key, left: DeviceValue, acknowledged: bool)

  function DeviceValueOf(s: Sys, key: Key): DeviceValue {
    if key in s.device then s.device[key] else WireOther
  }

  /** The device acknowledges without a value: the property is an empty list, or the acknowledgement is that of a
      write. */
  predicate EmptyAnswer(s: Sys, a: Action) {
    a.AskDevice? && (a.simpleAck || DeviceValueOf(s, a.key) == WireNothing)
  }

  /** What the worker answers a read with: an acknowledgement without a value leaves the shared one alone. */
  function AnswerOf(s: Sys, a: Action): DeviceValue
    requires a.AskDevice?
  {
    if EmptyAnswer(s, a) then s.last else DeviceValueOf(s, a.key)
  }

  /** `limit` bounds how long a typed helper waits for its answer. */
  predicate Enabled(s: Sys, a: Action, limit: nat) {
    s.table != [] &&
    match a
    case Pass(_) => true
    case DeviceSets(_, _) => true
    case CachedRead(key, kind) => s.pending.None? && Get(s.table, key, kind, s.clock).Some?
    case AskDevice(key, kind, _) => s.pending.None? && Get(s.table, key, kind, s.clock).None?
    case OtherTraffic(_) => true
    case Answered => s.pending.Some? && s.clock - s.pending.value.since <= limit
    case ReadFails => s.pending.Some?
    case Write(_, _, _) => s.pending.None?
  }

  /** The worker's probes and the reads of other callers leave what they get in the shared value. A write leaves
      some value on the device, not necessarily the one written: commandable properties
      answer with the highest priority in force. Only an acknowledged write invalidates. */
  function Next(s: Sys, a: Action): Sys
    requires s.table != []
  {
    match a
    case Pass(us) => s.(clock := s.clock + us)
    case DeviceSets(key, dv) => s.(device := s.device[key := dv])
    case CachedRead(_, _) => s
    case AskDevice(key, kind, _) =>
      s.(pending := Some(Pending(key, kind, AnswerOf(s, a), s.clock)), last := AnswerOf(s, a))
    case OtherTraffic(left) => s.(last := left)
    case Answered =>
      if s.pending.None? then s else
      var p := s.pending.value;
      var v := Interpret(p.kind, p.answer);
      s.(pending := None, table := if v.Some? then Put(s.table, p.key, v.value, s.clock) else s.table)
    case ReadFails => s.(pending := None)
    case Write(key, left, acknowledged) =>
      s.(device := s.device[key := left],
         table := if acknowledged then Invalidate(s.table, key) else s.table)
  }

  datatype ReadResult = ReadResult(key: Key, kind: Kind, value: Value)

  /** The typed read that succeeds at this action, if any. */
  function Succeeds(s: Sys, a: Action): Option<ReadResult> {
    match a
    case CachedRead(key, kind) =>
      var hit := Get(s.table, key, kind, s.clock);
      if hit.Some? then Some(ReadResult(key, kind, hit.value)) else None
    case Answered =>
      if s.pending.None? then None else
      var p := s.pending.value;
      var v := Interpret(p.kind, p.answer);
      if v.Some? then Some(ReadResult(p.key, p.kind, v.value)) else None
    case _ => None
  }

  datatype Trace = Trace(states: seq<Sys>, actions: seq<Action>)

  ghost predicate Valid(tr: Trace, limit: nat) {
    && |tr.states| == |tr.actions| + 1
    && tr.states[0].table == Initial() && tr.states[0].pending.None? && tr.states[0].last == WireOther
    && forall i :: 0 <= i < |tr.actions| ==>
         Enabled(tr.states[i], tr.actions[i], limit) && tr.states[i + 1] == Next(tr.states[i], tr.actions[i])
  }

  predicate Acknowledges(a: Action, key: Key) {
    a.Write? && a.key == key && a.acknowledged
  }

  /** No acknowledged write to `key` happens between moments `m` and `i`. */
  ghost predicate NoWriteBetween(tr: Trace, key: Key, m: nat, i: nat)
    requires i <= |tr.actions|
  {
    forall j :: m <= j < i ==> !Acknowledges(tr.actions[j], key)
  }

  lemma {:induction false} TableStaysUnique(tr: Trace, limit: nat, i: nat)
    requires Valid(tr, limit) && i < |tr.states|
    ensures tr.states[i].table != [] && UniqueKeys(tr.states[i].table)
  {
    if i == 0 {
    } else {
      TableStaysUnique(tr, limit, i - 1);
      var s, a := tr.states[i - 1], tr.actions[i - 1];
      if a.Answered? && Succeeds(s, a).Some? {
        PutKeepsUniqueKeys(s.table, s.pending.value.key, Succeeds(s, a).value.value, s.clock);
      } else if a.Write? && a.acknowledged {
        InvalidateMeaning(s.table, a.key, a.key);
      }
    }
  }

  predicate Asks(a: Action, key: Key) {
    a.AskDevice? && a.key == key
  }

  /** The question whose answer is on its way back. */
  lemma {:induction false} PendingSource(tr: Trace, limit: nat, i: nat) returns (m: nat)
    requires Valid(tr, limit) && i < |tr.states| && tr.states[i].pending.Some?
    ensures var p := tr.states[i].pending.value;
      && m < i && Asks(tr.actions[m], p.key)
      && AnswerOf(tr.states[m], tr.actions[m]) == p.answer
      && tr.states[m].clock == p.since
      && NoWriteBetween(tr, p.key, m, i)
  {
    hide AnswerOf, Interpret, Put, Invalidate, Get;
    if tr.actions[i - 1].AskDevice? {
      m := i - 1;
    } else {
      m := PendingSource(tr, limit, i - 1);
    }
  }

  /** The step stores the answer of a read of `key`. */
  predicate Fetches(s: Sys, a: Action, key: Key) {
    a.Answered? && Succeeds(s, a).Some? && Succeeds(s, a).value.key == key
  }

  /** An entry that lives after a step was either fetched by it, or lived before and was not written. */
  lemma StepOnEntry(s: Sys, a: Action, key: Key)
    requires s.table != [] && UniqueKeys(s.table)
    requires Lives(Next(s, a).table, key)
    ensures var e := Next(s, a).table[Find(Next(s, a).table, key)];
      if Fetches(s, a, key) then
        var p := s.pending.value;
        e == Entry(key, Interpret(p.kind, p.answer), s.clock)
      else
        Lives(s.table, key) && e == s.table[Find(s.table, key)] && !Acknowledges(a, key)
  {
    if a.Answered? && Succeeds(s, a).Some? {
      var r := Succeeds(s, a).value;
      PutMeaning(s.table, r.key, r.value, s.clock, key);
    } else if a.Write? && a.acknowledged {
      InvalidateMeaning(s.table, a.key, key);
    }
  }

  lemma NothingLivesInitially(key: Key)
    ensures !Lives(Initial(), key)
  {
  }

  /** Every live cache entry goes back to a question about its key, and holds what the worker answered. */
  lemma {:induction false} EntrySource(tr: Trace, limit: nat, i: nat, key: Key) returns (m: nat)
    requires Valid(tr, limit) && i < |tr.states| && Lives(tr.states[i].table, key)
    ensures var e := tr.states[i].table[Find(tr.states[i].table, key)];
      && m < i && Asks(tr.actions[m], key)
      && Interpret(KindOf(e.value.value), AnswerOf(tr.states[m], tr.actions[m])) == e.value
      && e.stamp - tr.states[m].clock <= limit
      && NoWriteBetween(tr, key, m, i)
  {
    hide UniqueKeys, Find, Put, Invalidate, Interpret, AnswerOf;
    assert i > 0 by {
      NothingLivesInitially(key);
    }
    TableStaysUnique(tr, limit, i - 1);
    var s, a := tr.states[i - 1], tr.actions[i - 1];
    StepOnEntry(s, a, key);
    if Fetches(s, a, key) {
      InterpretKeepsKind(s.pending.value.kind, s.pending.value.answer);
      m := PendingSource(tr, limit, i - 1);
    } else {
      m := EntrySource(tr, limit, i - 1, key);
    }
  }

  /** Every successful typed read, cached or not, goes back to a question about its property less than 30 s (plus the
      waiting limit of the call that asked it) before, with no acknowledged write to that property in between, and
      returns what the worker answered then. */
  lemma ReadOrigin(tr: Trace, limit: nat, i: nat) returns (m: nat)
    requires Valid(tr, limit) && i < |tr.actions|
    requires Succeeds(tr.states[i], tr.actions[i]).Some?
    ensures var r := Succeeds(tr.states[i], tr.actions[i]).value;
      && m < i && Asks(tr.actions[m], r.key)
      && Interpret(r.kind, AnswerOf(tr.states[m], tr.actions[m])) == Some(r.value)
      && tr.states[i].clock - tr.states[m].clock < 30_000_000 + limit
      && NoWriteBetween(tr, r.key, m, i)
  {
    hide AnswerOf;
    var s, a := tr.states[i], tr.actions[i];
    if a.CachedRead? {
      FreshMeansUnderThirtySeconds(s.clock, s.table[Find(s.table, a.key)].stamp);
      m := EntrySource(tr, limit, i, a.key);
    } else {
      m := PendingSource(tr, limit, i);
    }
  }

  /** No question about `key` before `i` was answered without a value. */
  ghost predicate AnswersCarryValues(tr: Trace, key: Key, i: nat)
    requires |tr.states| == |tr.actions| + 1 && i <= |tr.actions|
  {
    forall j :: 0 <= j < i && Asks(tr.actions[j], key) ==> !EmptyAnswer(tr.states[j], tr.actions[j])
  }

  /** So if the answers about a property carry values, every successful read of it returns a value the device held
      less than 30 s (plus the waiting limit) before, and not before the last acknowledged write. */
  lemma ReadsAreCoherent(tr: Trace, limit: nat, i: nat) returns (m: nat)
    requires Valid(tr, limit) && i < |tr.actions|
    requires Succeeds(tr.states[i], tr.actions[i]).Some?
    requires AnswersCarryValues(tr, Succeeds(tr.states[i], tr.actions[i]).value.key, i)
    ensures var r := Succeeds(tr.states[i], tr.actions[i]).value;
      && m <= i
      && Interpret(r.kind, DeviceValueOf(tr.states[m], r.key)) == Some(r.value)
      && tr.states[i].clock - tr.states[m].clock < 30_000_000 + limit
      && NoWriteBetween(tr, r.key, m, i)
  {
    hide Valid, Succeeds, Interpret;
    m := ReadOrigin(tr, limit, i);
  }

  /** What the values mean: under the same conditions a REAL is the one the device held, a truth value says whether the
      enumerated it held was not zero, and a multi-state value is the unsigned it held, cut to 32 bits. */
  lemma ReadsMeanWhatWasHeld(tr: Trace, limit: nat, i: nat) returns (m: nat)
    requires Valid(tr, limit) && i < |tr.actions|
    requires Succeeds(tr.states[i], tr.actions[i]).Some?
    requires AnswersCarryValues(tr, Succeeds(tr.states[i], tr.actions[i]).value.key, i)
    ensures var r := Succeeds(tr.states[i], tr.actions[i]).value;
      && m <= i && r.key in tr.states[m].device
      && tr.states[i].clock - tr.states[m].clock < 30_000_000 + limit
      && NoWriteBetween(tr, r.key, m, i)
      && var held := tr.states[m].device[r.key];
         match r.value
         case Real(b) => r.kind == KindReal && held == WireReal(b)
         case Bool(b) => r.kind == KindBool && held.WireEnumerated? && (b <==> held.n != 0)
         case Msv(u) => r.kind == KindMsv && held.WireUnsigned? && u == held.u % 0x1_0000_0000
  {
    hide Valid, Succeeds;
    m := ReadsAreCoherent(tr, limit, i);
  }

  /** What may happen around a read: a helper does not start another while one is pending; a failed one leaves the cache
      alone; other traffic touches the shared value and nothing else. */
  lemma SurroundingsExactly(s: Sys, key: Key, kind: Kind, simpleAck: bool, left: DeviceValue, limit: nat)
    requires s.table != []
    ensures Enabled(s, CachedRead(key, kind), limit) <==>
            s.pending.None? && Get(s.table, key, kind, s.clock).Some?
    ensures Enabled(s, AskDevice(key, kind, simpleAck), limit) <==>
            s.pending.None? && Get(s.table, key, kind, s.clock).None?
    ensures Enabled(s, ReadFails, limit) <==> s.pending.Some?
    ensures Next(s, ReadFails) == s.(pending := None)
    ensures Enabled(s, OtherTraffic(left), limit) && Next(s, OtherTraffic(left)) == s.(last := left)
  {
  }

  /** A fetched read succeeds exactly when the answer's tag fits: REAL for a REAL, enumerated for a truth value,
      unsigned for a multi-state value. */
  lemma FetchSucceedsExactly(s: Sys)
    requires s.pending.Some?
    ensures var p := s.pending.value;
      Succeeds(s, Answered).Some? <==>
      || (p.kind == KindReal && p.answer.WireReal?)
      || (p.kind == KindBool && p.answer.WireEnumerated?)
      || (p.kind == KindMsv && p.answer.WireUnsigned?)
    ensures Succeeds(s, Answered).Some? ==>
              Succeeds(s, Answered).value.key == s.pending.value.key
  {
  }

  /** What a fetched read returns answers the reads of that property for the next 30 s; one that fails caches
      nothing. */
  lemma FetchIsCached(s: Sys, now: int)
    requires s.table != [] && UniqueKeys(s.table) && s.pending.Some?
    ensures match Succeeds(s, Answered)
      case Some(r) =>
        Get(Next(s, Answered).table, r.key, r.kind, now) == if now - s.clock < 30_000_000 then Some(r.value) else None
      case None => Next(s, Answered).table == s.table
  {
    hide UniqueKeys, Find, Put;
    var p := s.pending.value;
    if Succeeds(s, Answered).Some? {
      InterpretKeepsKind(p.kind, p.answer);
      PutMeaning(s.table, p.key, Succeeds(s, Answered).value.value, s.clock, p.key);
      FreshMeansUnderThirtySeconds(now, s.clock);
    }
  }

  /** A read cached under one kind does not answer a read of another. */
  lemma CachedReadKeepsKind(s: Sys, key: Key, kind: Kind)
    requires Succeeds(s, CachedRead(key, kind)).Some?
    ensures var r := Succeeds(s, CachedRead(key, kind)).value;
      && r.key == key && r.kind == kind
      && (r.value.Real? <==> kind == KindReal) && (r.value.Bool? <==> kind == KindBool)
      && (r.value.Msv? <==> kind == KindMsv)
  {
  }

  /** What the typed writes send. */
  function Sent(v: Value): DeviceValue {
    match v
    case Real(bits) => WireReal(bits)
    case Bool(b) => WireEnumerated(if b then 1 else 0)
    case Msv(u) => WireUnsigned(if u < 0 then 0 else u)
  }

  /** If the device takes what an acknowledged typed write sends, the next typed read goes to the device and gives the
      written value back. */
  lemma WriteThenRead(s: Sys, key: Key, v: Value, limit: nat)
    requires s.table != [] && UniqueKeys(s.table) && s.pending.None?
    requires v.Msv? ==> 0 <= v.u < 0x1_0000_0000
    ensures Sent(Bool(true)) == WireEnumerated(1) && Sent(Bool(false)) == WireEnumerated(0)
    ensures v.Real? ==> Sent(v) == WireReal(v.bits)
    ensures v.Msv? ==> Sent(v) == WireUnsigned(v.u)
    ensures
      var write, ask := Write(key, Sent(v), true), AskDevice(key, KindOf(v), false);
      && Enabled(s, write, limit)
      && var written := Next(s, write);
         && Enabled(written, ask, limit)
         && (forall kind, now :: Get(written.table, key, kind, now) == None)
         && var asked := Next(written, ask);
            && Enabled(asked, Answered, limit)
            && Succeeds(asked, Answered) == Some(ReadResult(key, KindOf(v), v))
  {
    hide UniqueKeys, Find;
    InvalidateMeaning(s.table, key, key);
  }

  /** If the action is a read that succeeds, the device held the value at a moment less than `bound`
      microseconds before, with no acknowledged write to that property in between. */
  ghost predicate ReadWithin(tr: Trace, i: nat, bound: int)
    requires |tr.states| == |tr.actions| + 1 && i < |tr.actions|
  {
    Succeeds(tr.states[i], tr.actions[i]).Some? ==>
      var r := Succeeds(tr.states[i], tr.actions[i]).value;
      exists m :: 0 <= m <= i && Held(tr, m, r) && tr.states[i].clock - tr.states[m].clock < bound
                  && NoWriteBetween(tr, r.key, m, i)
  }

  predicate Held(tr: Trace, m: nat, r: ReadResult)
    requires m < |tr.states|
  {
    Interpret(r.kind, DeviceValueOf(tr.states[m], r.key)) == Some(r.value)
  }

  /** A read is answered, the device changes the value, and the answer is stored at the last moment and asked
      for again at the last moment. */
  function OldestActions(key: Key, limit: nat): seq<Action> {
    [AskDevice(key, KindReal, false), DeviceSets(key, WireReal(1)), Pass(limit), Answered, Pass(29_999_999),
     CachedRead(key, KindReal)]
  }

  function OldestStates(key: Key, limit: nat): seq<Sys> {
    var before, after := map[key := WireReal(0)], map[key := WireReal(1)];
    var asked := Some(Pending(key, KindReal, WireReal(0), 0));
    var table := Put(Initial(), key, Real(0), limit);
    [Sys(0, before, Initial(), None, WireOther),
     Sys(0, before, Initial(), asked, WireReal(0)),
     Sys(0, after, Initial(), asked, WireReal(0)),
     Sys(limit, after, Initial(), asked, WireReal(0)),
     Sys(limit, after, table, None, WireReal(0)),
     Sys(limit + 29_999_999, after, table, None, WireReal(0)),
     Sys(limit + 29_999_999, after, table, None, WireReal(0))]
  }

  lemma InitialHasUniqueKeys()
    ensures UniqueKeys(Initial())
  {
  }

  lemma OldestHits(key: Key, limit: nat)
    ensures Get(Initial(), key, KindReal, 0) == None
    ensures Get(Put(Initial(), key, Real(0), limit), key, KindReal, limit + 29_999_999) == Some(Real(0))
  {
    hide Put, Find, UniqueKeys, Fresh;
    NothingLivesInitially(key);
    InitialHasUniqueKeys();
    PutMeaning(Initial(), key, Real(0), limit, key);
    FreshMeansUnderThirtySeconds(limit + 29_999_999, limit);
  }

  function OldestRun(key: Key, limit: nat): Trace {
    Trace(OldestStates(key, limit), OldestActions(key, limit))
  }

  lemma OldestBeginning(key: Key, limit: nat)
    ensures var ss, aa := OldestStates(key, limit), OldestActions(key, limit);
      forall j :: 0 <= j < 3 ==> Enabled(ss[j], aa[j], limit) && ss[j + 1] == Next(ss[j], aa[j])
  {
    hide Put, Get, Initial;
    OldestHits(key, limit);
    InitialLength();
    assert map[key := WireReal(0)][key := WireReal(1)] == map[key := WireReal(1)];
  }

  lemma OldestEnd(key: Key, limit: nat)
    ensures var ss, aa := OldestStates(key, limit), OldestActions(key, limit);
      forall j :: 3 <= j < 6 ==> Enabled(ss[j], aa[j], limit) && ss[j + 1] == Next(ss[j], aa[j])
  {
    hide Put, Get, Initial;
    OldestHits(key, limit);
    InitialLength();
  }

  lemma OldestIsValid(key: Key, limit: nat)
    ensures Valid(OldestRun(key, limit), limit)
  {
    hide Enabled, Next, Put;
    OldestBeginning(key, limit);
    OldestEnd(key, limit);
  }

  lemma OldestFacts(key: Key, limit: nat)
    ensures EmptyOnlyOn(OldestRun(key, limit), {}) && |OldestRun(key, limit).actions| == 6
    ensures Succeeds(OldestStates(key, limit)[5], CachedRead(key, KindReal))
         == Some(ReadResult(key, KindReal, Real(0)))
  {
    hide Put, Get, Initial;
    OldestHits(key, limit);
  }

  lemma InitialLength()
    ensures |Initial()| == ENTRIES
  {
  }

  /** A valid run without empty answers in which the value read was last held the full bound ago. */
  lemma OldestRead(key: Key, limit: nat, bound: int)
    requires bound < 30_000_000 + limit
    ensures var tr := OldestRun(key, limit);
      && Valid(tr, limit) && EmptyOnlyOn(tr, {}) && |tr.actions| == 6
      && !ReadWithin(tr, 5, bound)
  {
    hide Put, Get, NoWriteBetween, Valid, EmptyOnlyOn;
    OldestIsValid(key, limit);
    OldestFacts(key, limit);
    var tr := OldestRun(key, limit);
    forall m | 0 <= m <= 5 && Held(tr, m, ReadResult(key, KindReal, Real(0)))
      ensures tr.states[5].clock - tr.states[m].clock >= bound
    {
      assert m <= 1;
    }
  }

  /** All answers without a value are about the given properties. */
  ghost predicate EmptyOnlyOn(tr: Trace, keys: set<Key>)
    requires |tr.states| == |tr.actions| + 1
  {
    forall j :: 0 <= j < |tr.actions| && EmptyAnswer(tr.states[j], tr.actions[j]) ==> tr.actions[j].key in keys
  }

  function AnotherKey(key: Key): (other: Key)
    ensures other != key
  {
    key.(instance := key.instance + 1)
  }

  /** One property is read, then another that is an empty list. */
  function StaleActions(key: Key): seq<Action> {
    [AskDevice(AnotherKey(key), KindReal, false), Answered, AskDevice(key, KindReal, false), Answered]
  }

  function StaleStates(key: Key): seq<Sys> {
    var other := AnotherKey(key);
    var device := map[other := WireReal(7), key := WireNothing];
    var first := Put(Initial(), other, Real(7), 0);
    [Sys(0, device, Initial(), None, WireOther),
     Sys(0, device, Initial(), Some(Pending(other, KindReal, WireReal(7), 0)), WireReal(7)),
     Sys(0, device, first, None, WireReal(7)),
     Sys(0, device, first, Some(Pending(key, KindReal, WireReal(7), 0)), WireReal(7)),
     Sys(0, device, Put(first, key, Real(7), 0), None, WireReal(7))]
  }

  function StaleRun(key: Key): Trace {
    Trace(StaleStates(key), StaleActions(key))
  }

  lemma StaleMisses(key: Key)
    ensures Get(Initial(), AnotherKey(key), KindReal, 0) == None
    ensures Get(Put(Initial(), AnotherKey(key), Real(7), 0), key, KindReal, 0) == None
  {
    hide Put, Find, UniqueKeys, Fresh;
    NothingLivesInitially(key);
    NothingLivesInitially(AnotherKey(key));
    InitialHasUniqueKeys();
    PutMeaning(Initial(), AnotherKey(key), Real(7), 0, key);
  }

  lemma StaleBeginning(key: Key, limit: nat)
    ensures var ss, aa := StaleStates(key), StaleActions(key);
      forall j :: 0 <= j < 2 ==> Enabled(ss[j], aa[j], limit) && ss[j + 1] == Next(ss[j], aa[j])
  {
    hide Put, Get, Initial;
    StaleMisses(key);
    InitialLength();
  }

  lemma StaleEnd(key: Key, limit: nat)
    ensures var ss, aa := StaleStates(key), StaleActions(key);
      forall j :: 2 <= j < 4 ==> Enabled(ss[j], aa[j], limit) && ss[j + 1] == Next(ss[j], aa[j])
  {
    hide Put, Get, Initial;
    StaleMisses(key);
    InitialLength();
  }

  lemma StaleIsValid(key: Key, limit: nat)
    ensures Valid(StaleRun(key), limit)
  {
    hide Enabled, Next, Put;
    StaleBeginning(key, limit);
    StaleEnd(key, limit);
  }

  /** A valid run in which the second read returns, and caches, the first one's value, which the device never held
      there: with an answer without a value no bound holds. */
  lemma StaleRead(key: Key, limit: nat, bound: int)
    ensures var tr := StaleRun(key);
      && Valid(tr, limit) && EmptyOnlyOn(tr, {key}) && |tr.actions| == 4
      && Succeeds(tr.states[3], tr.actions[3]) == Some(ReadResult(key, KindReal, Real(7)))
      && (forall m :: 0 <= m < |tr.states| ==> DeviceValueOf(tr.states[m], key) == WireNothing)
      && !ReadWithin(tr, 3, bound)
  {
    hide Put, Get, Initial, NoWriteBetween, Valid;
    StaleIsValid(key, limit);
  }

  lemma EveryReadIsWithin(tr: Trace, limit: nat, i: nat, bound: int)
    requires Valid(tr, limit) && i < |tr.actions| && EmptyOnlyOn(tr, {}) && 30_000_000 + limit <= bound
    ensures ReadWithin(tr, i, bound)
  {
    if Succeeds(tr.states[i], tr.actions[i]).Some? {
      var m := ReadsAreCoherent(tr, limit, i);
      assert Held(tr, m, Succeeds(tr.states[i], tr.actions[i]).value);
    }
  }

  /** Exactly when reads are coherent: where answers without a value occur at most for the given properties, all
      reads of all runs stay below the bound if and only if there are no such properties and the bound is at least
      30 s plus the waiting limit. */
  lemma ReadAgeExactly(limit: nat, bound: int, keys: set<Key>)
    ensures (forall tr, i :: Valid(tr, limit) && EmptyOnlyOn(tr, keys) && 0 <= i < |tr.actions| ==>
               ReadWithin(tr, i, bound))
            <==> 30_000_000 + limit <= bound && keys == {}
  {
    hide ReadWithin, OldestRun, StaleRun;
    if keys != {} {
      var key :| key in keys;
      StaleRead(key, limit, bound);
      assert EmptyOnlyOn(StaleRun(key), keys);
    } else if bound < 30_000_000 + limit {
      OldestRead(Key(0, 0, 0), limit, bound);
    } else {
      forall tr, i | Valid(tr, limit) && EmptyOnlyOn(tr, keys) && 0 <= i < |tr.actions|
        ensures ReadWithin(tr, i, bound)
      {
        EveryReadIsWithin(tr, limit, i, bound);
      }
    }
  }

  /** So 30 s are the limit of all reads if and only if every answer carries a value and the answers of fetching
      calls come back at once. */
  lemma ThirtySecondsExactly(limit: nat, keys: set<Key>)
    ensures (forall tr, i :: Valid(tr, limit) && EmptyOnlyOn(tr, keys) && 0 <= i < |tr.actions| ==>
               ReadWithin(tr, i, 30_000_000))
            <==> limit == 0 && keys == {}
  {
    hide ReadWithin;
    ReadAgeExactly(limit, 30_000_000, keys);
  }
}
