/** The read cache as its callers see it: the operations performed in place on the slots, and what they guarantee in
    terms of the arguments they are called with. */
module CacheCalls {
  import opened Wrappers
  import opened ReadCache
  import opened CacheHistory

  /** A call that changes the cache, with its arguments; `at` is what the timer returned. */
  datatype Call =
    | PutCall(objectType: int, instance: int, property: int, value: Value, at: int)
    | DropCall(objectType: int, instance: int, property: int)

  /** The call is about the given property: of the object type only 16 bits count. */
  predicate About(c: Call, objectType: int, instance: int, property: int) {
    && c.objectType % 0x1_0000 == objectType % 0x1_0000
    && c.instance == instance
    && c.property == property
  }

  /** The last call about the property. */
  ghost predicate Latest(calls: seq<Call>, i: nat, objectType: int, instance: int, property: int) {
    && i < |calls| && About(calls[i], objectType, instance, property)
    && forall j :: i < j < |calls| ==> !About(calls[j], objectType, instance, property)
  }

  /** That call stored a value of the kind asked for, less than 30 s ago. */
  predicate Answers(c: Call, kind: Kind, now: int) {
    c.PutCall? && KindOf(c.value) == kind && now - c.at < 30_000_000
  }

  /** The properties the calls are about. */
  function Properties(calls: seq<Call>): set<(int, int, int)> {
    set c <- calls :: (c.objectType % 0x1_0000, c.instance, c.property)
  }

  function KeyOfCall(c: Call): Key {
    KeyOf(c.objectType, c.instance, c.property)
  }

  function EventOf(c: Call): Event {
    if c.PutCall? then PutEvent(KeyOfCall(c), c.value, c.at) else InvalidateEvent(KeyOfCall(c))
  }

  function Events(calls: seq<Call>): (h: seq<Event>)
    ensures |h| == |calls|
  {
    seq(|calls|, i requires 0 <= i < |calls| => EventOf(calls[i]))
  }

  lemma EventsAppend(calls: seq<Call>, c: Call)
    ensures Events(calls + [c]) == Events(calls) + [EventOf(c)]
  {
  }

  /** What the cache answers after the given calls. */
  function Answer(calls: seq<Call>, objectType: int, instance: int, property: int, kind: Kind, now: int):
    Option<Value>
  {
    Get(Replay(Events(calls)), KeyOf(objectType, instance, property), kind, now)
  }

  lemma KeysDistinguish(c: Call, objectType: int, instance: int, property: int)
    ensures KeyOfCall(c) == KeyOf(objectType, instance, property) <==> About(c, objectType, instance, property)
  {
  }

  lemma LatestIsLastPut(calls: seq<Call>, i: nat, objectType: int, instance: int, property: int)
    requires i < |calls| && calls[i].PutCall?
    ensures Latest(calls, i, objectType, instance, property)
            <==> LastPut(Events(calls), KeyOf(objectType, instance, property)) == Some(i)
  {
    hide LastPut, KeyOf, About;
    var h, key := Events(calls), KeyOf(objectType, instance, property);
    forall j | 0 <= j < |calls| ensures h[j].key == key <==> About(calls[j], objectType, instance, property) {
      KeysDistinguish(calls[j], objectType, instance, property);
    }
    LastPutIsLast(h, key);
    if Latest(calls, i, objectType, instance, property) {
      LastPutFound(h, i, key);
    }
  }

  /** A hit is the value that the latest call about the very property stored, of the kind asked for and less than
      30 s ago; and with at most 64 properties in play every such value is hit. */
  lemma HitsAreLatestPuts(
    calls: seq<Call>, objectType: int, instance: int, property: int, kind: Kind, now: int)
    ensures Answer(calls, objectType, instance, property, kind, now).Some? ==>
              exists i :: 0 <= i < |calls| && Latest(calls, i, objectType, instance, property)
                && Answers(calls[i], kind, now)
                && Answer(calls, objectType, instance, property, kind, now) == Some(calls[i].value)
    ensures |Properties(calls)| <= 64 ==>
              forall i | 0 <= i < |calls| && Latest(calls, i, objectType, instance, property) ::
                Answers(calls[i], kind, now) ==>
                Answer(calls, objectType, instance, property, kind, now) == Some(calls[i].value)
  {
    hide LastPut, KeyOf, Replay, Get, Latest, Properties;
    var h, key := Events(calls), KeyOf(objectType, instance, property);
    HitIsLatestPut(h, key, kind, now);
    if Answer(calls, objectType, instance, property, kind, now).Some? {
      LatestIsLastPut(calls, LastPut(h, key).value, objectType, instance, property);
    }
    if |Properties(calls)| <= 64 {
      forall i | 0 <= i < |calls| && Latest(calls, i, objectType, instance, property) && Answers(calls[i], kind, now)
        ensures Answer(calls, objectType, instance, property, kind, now) == Some(calls[i].value)
      {
        LatestIsLastPut(calls, i, objectType, instance, property);
        var keys := FewKeys(calls);
        WithinCapacityCacheIsLastPutMap(h, keys, key, kind, now);
      }
    }
  }

  lemma {:induction false} ImageIsNoLarger(triples: set<(int, int, int)>) returns (keys: set<Key>)
    ensures |keys| <= |triples| && forall t <- triples :: Key(t.0, t.1, t.2) in keys
    decreases |triples|
  {
    if triples == {} {
      keys := {};
    } else {
      var t :| t in triples;
      keys := ImageIsNoLarger(triples - {t});
      keys := keys + {Key(t.0, t.1, t.2)};
    }
  }

  lemma FewKeys(calls: seq<Call>) returns (keys: set<Key>)
    requires |Properties(calls)| <= 64
    ensures |keys| <= ENTRIES
    ensures forall i :: 0 <= i < |calls| && Events(calls)[i].PutEvent? ==> Events(calls)[i].key in keys
  {
    keys := ImageIsNoLarger(Properties(calls));
    forall c | c in calls ensures KeyOfCall(c) in keys {
      var t := (c.objectType % 0x1_0000, c.instance, c.property);
      assert t in Properties(calls);
      assert Key(t.0, t.1, t.2) in keys;
    }
  }

  /** An invalidate takes away exactly the property it names. */
  lemma AfterDrop(
    calls: seq<Call>, c: Call, objectType: int, instance: int, property: int, kind: Kind, now: int)
    requires c.DropCall?
    ensures Answer(calls + [c], objectType, instance, property, kind, now) ==
            if About(c, objectType, instance, property) then None
            else Answer(calls, objectType, instance, property, kind, now)
  {
    hide LastPut, KeyOf, About, UniqueKeys, Find;
    var key := KeyOf(objectType, instance, property);
    EventsAppend(calls, c);
    ReplayAppend(Events(calls), EventOf(c));
    LiveEntryIsLatestPut(Events(calls), key);
    KeysDistinguish(c, objectType, instance, property);
    InvalidateMeaning(Replay(Events(calls)), KeyOfCall(c), key);
  }

  /** A put answers for its property from then on; any other answer stays, or is evicted. */
  lemma AfterPut(
    calls: seq<Call>, c: Call, objectType: int, instance: int, property: int, kind: Kind, now: int)
    requires c.PutCall?
    ensures var after := Answer(calls + [c], objectType, instance, property, kind, now);
      if About(c, objectType, instance, property) then
        after == if Answers(c, kind, now) then Some(c.value) else None
      else after == Answer(calls, objectType, instance, property, kind, now) || after == None
  {
    hide LastPut, KeyOf, About, UniqueKeys, Find, Put;
    var key := KeyOf(objectType, instance, property);
    EventsAppend(calls, c);
    ReplayAppend(Events(calls), EventOf(c));
    LiveEntryIsLatestPut(Events(calls), key);
    KeysDistinguish(c, objectType, instance, property);
    PutMeaning(Replay(Events(calls)), KeyOfCall(c), c.value, c.at, key);
    FreshMeansUnderThirtySeconds(now, c.at);
  }

  /** `s_bacnet_cache` and the functions that work on it; the ghost calls tie the slots to what was asked of them. */
  class Cache {
    const slots: array<Entry>
    ghost var calls: seq<Call>

    ghost predicate Valid()
      reads this, slots
    {
      slots.Length == ENTRIES && slots[..] == Replay(Events(calls))
    }

    constructor ()
      ensures Valid() && fresh(slots) && calls == []
    {
      slots := new Entry[ENTRIES](_ => Entry(Key(0, 0, 0), None, 0));
      calls := [];
    }

    /** `bacnet_cache_find_locked`; the table's length stands for the null pointer. */
    method FindSlot(objectType: int, instance: int, property: int) returns (i: nat)
      ensures i == Find(slots[..], KeyOf(objectType, instance, property))
      ensures i <= slots.Length
      ensures i < slots.Length ==> Caches(slots[i], objectType, instance, property)
      ensures forall j :: 0 <= j < i ==> !Caches(slots[j], objectType, instance, property)
    {
      var key := KeyOf(objectType, instance, property);
      i := 0;
      while i < slots.Length
        invariant i <= slots.Length
        invariant Find(slots[..], key) == FindFrom(slots[..], key, i)
        invariant forall j :: 0 <= j < i ==> !Caches(slots[j], objectType, instance, property)
      {
        if Holds(slots[i], key) {
          return;
        }
        i := i + 1;
      }
    }

    /** `bacnet_cache_slot_locked` */
    method ChooseSlot(objectType: int, instance: int, property: int) returns (slot: nat)
      requires 0 < slots.Length
      ensures slot == Slot(slots[..], KeyOf(objectType, instance, property))
    {
      slot := FindSlot(objectType, instance, property);
      if slot < slots.Length {
        return;
      }
      var oldest := 0;
      var i := 0;
      while i < slots.Length
        invariant i <= slots.Length && oldest < slots.Length
        invariant ScanFrom(slots[..], 0, 0) == ScanFrom(slots[..], i, oldest)
      {
        if slots[i].value.None? {
          return i;
        }
        if slots[i].stamp < slots[oldest].stamp {
          oldest := i;
        }
        i := i + 1;
      }
      return oldest;
    }

    /** `bacnet_cache_get`; `now` is what the timer returns inside the critical section. */
    method Lookup(objectType: int, instance: int, property: int, kind: Kind, now: int)
      returns (hit: Option<Value>)
      requires Valid()
      ensures hit == Answer(calls, objectType, instance, property, kind, now)
      ensures hit.Some? ==>
                exists i :: 0 <= i < |calls| && Latest(calls, i, objectType, instance, property)
                  && Answers(calls[i], kind, now) && hit.value == calls[i].value
    {
      var i := FindSlot(objectType, instance, property);
      HitsAreLatestPuts(calls, objectType, instance, property, kind, now);
      if i < slots.Length && KindOf(slots[i].value.value) == kind && Fresh(now, slots[i].stamp) {
        return slots[i].value;
      }
      return None;
    }

    /** `bacnet_cache_put` */
    method Store(objectType: int, instance: int, property: int, v: Value, now: int)
      requires Valid()
      modifies slots, `calls
      ensures Valid() && calls == old(calls) + [PutCall(objectType, instance, property, v, now)]
    {
      ghost var c := PutCall(objectType, instance, property, v, now);
      EventsAppend(calls, c);
      ReplayAppend(Events(calls), EventOf(c));
      var i := ChooseSlot(objectType, instance, property);
      slots[i] := Entry(KeyOf(objectType, instance, property), Some(v), now);
      calls := calls + [c];
    }

    /** `bacnet_cache_invalidate` */
    method Drop(objectType: int, instance: int, property: int)
      requires Valid()
      modifies slots, `calls
      ensures Valid() && calls == old(calls) + [DropCall(objectType, instance, property)]
    {
      ghost var c := DropCall(objectType, instance, property);
      EventsAppend(calls, c);
      ReplayAppend(Events(calls), EventOf(c));
      var i := FindSlot(objectType, instance, property);
      if i < slots.Length {
        slots[i] := slots[i].(value := None, stamp := 0);
      }
      calls := calls + [c];
    }
  }

  /** A live slot of the property. */
  predicate Caches(e: Entry, objectType: int, instance: int, property: int) {
    && e.value.Some?
    && e.key.objectType == objectType % 0x1_0000
    && e.key.instance == instance
    && e.key.property == property
  }
}
