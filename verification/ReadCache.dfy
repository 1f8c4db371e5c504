/** The 64-slot, 30-second read cache of the BACnet worker: its table and the three operations on it.
    `CacheHistory` proves what whole runs of them guarantee, and `CacheCalls` performs them in place. */
module ReadCache {
  import opened Wrappers

  const ENTRIES := 64
  const TTL_MS := 30000

  /** A slot stores the object type in 16 bits, so that is all a key keeps of it. */
  datatype Key = Key(objectType: int, instance: int, property: int)

  function KeyOf(objectType: int, instance: int, property: int): Key {
    Key(objectType % 0x1_0000, instance, property)
  }

  datatype Kind = KindReal | KindBool | KindMsv

  /** The union of a slot together with its kind tag; a REAL is its four octets. */
  datatype Value = Real(bits: int) | Bool(b: bool) | Msv(u: int)

  function KindOf(v: Value): Kind {
    match v
    case Real(_) => KindReal
    case Bool(_) => KindBool
    case Msv(_) => KindMsv
  }

  /** `value` is None for BC_KIND_NONE; an invalidated slot keeps its stale key. */
  datatype Entry = Entry(key: Key, value: Option<Value>, stamp: int)

  type Table = seq<Entry>

  predicate Holds(e: Entry, key: Key) {
    e.value.Some? && e.key == key
  }

  /** `int64_t` division truncates toward zero. */
  function TruncatingDiv(a: int, b: int): int
    requires 0 < b
  {
    if 0 <= a then a / b else -(-a / b)
  }

  predicate Fresh(now: int, stamp: int) {
    TruncatingDiv(now - stamp, 1000) < TTL_MS
  }

  lemma FreshMeansUnderThirtySeconds(now: int, stamp: int)
    ensures Fresh(now, stamp) <==> now - stamp < 30_000_000
  {
  }

  /** The first live slot at or after `i` holding `key`, or the table's length. */
  function FindFrom(t: Table, key: Key, i: nat): (r: nat)
    requires i <= |t|
    ensures i <= r <= |t|
    ensures r < |t| ==> Holds(t[r], key)
    ensures forall j :: i <= j < r ==> !Holds(t[j], key)
    decreases |t| - i
  {
    if i == |t| || Holds(t[i], key) then i else FindFrom(t, key, i + 1)
  }

  function Find(t: Table, key: Key): (r: nat)
    ensures r <= |t|
    ensures r < |t| ==> Holds(t[r], key)
    ensures forall j :: 0 <= j < r ==> !Holds(t[j], key)
  {
    FindFrom(t, key, 0)
  }

  /** The replacement scan from slot `i` on: the first free slot, else the first of the oldest ones. */
  function ScanFrom(t: Table, i: nat, oldest: nat): (r: nat)
    requires i <= |t| && oldest < |t|
    ensures r < |t|
    decreases |t| - i
  {
    if i == |t| then oldest
    else if t[i].value.None? then i
    else ScanFrom(t, i + 1, if t[i].stamp < t[oldest].stamp then i else oldest)
  }

  function Slot(t: Table, key: Key): (r: nat)
    requires t != []
    ensures r < |t|
  {
    var found := Find(t, key);
    if found < |t| then found else ScanFrom(t, 0, 0)
  }

  function Get(t: Table, key: Key, kind: Kind, now: int): Option<Value> {
    var i := Find(t, key);
    if i < |t| && KindOf(t[i].value.value) == kind && Fresh(now, t[i].stamp) then t[i].value else None
  }

  function Put(t: Table, key: Key, v: Value, now: int): (t': Table)
    requires t != []
    ensures |t'| == |t|
  {
    t[Slot(t, key) := Entry(key, Some(v), now)]
  }

  function Invalidate(t: Table, key: Key): (t': Table)
    ensures |t'| == |t|
  {
    var i := Find(t, key);
    if i < |t| then t[i := t[i].(value := None, stamp := 0)] else t
  }

  ghost predicate UniqueKeys(t: Table) {
    forall i, j :: 0 <= i < j < |t| && t[i].value.Some? && t[j].value.Some? ==> t[i].key != t[j].key
  }

  predicate Full(t: Table) {
    forall i :: 0 <= i < |t| ==> t[i].value.Some?
  }

  predicate Lives(t: Table, key: Key) {
    Find(t, key) < |t|
  }

  lemma HolderLives(t: Table, i: nat, key: Key)
    requires i < |t| && Holds(t[i], key)
    ensures Lives(t, key)
    ensures UniqueKeys(t) ==> Find(t, key) == i
  {
  }

  /** The scan returns a free slot if there is one, and otherwise a slot whose stamp is the least. */
  lemma {:induction false} ScanFromMeaning(t: Table, i: nat, oldest: nat)
    requires i <= |t| && oldest < |t|
    requires forall j :: 0 <= j < i ==> t[j].value.Some? && t[oldest].stamp <= t[j].stamp
    ensures var r := ScanFrom(t, i, oldest);
      if Full(t) then forall j :: 0 <= j < |t| ==> t[r].stamp <= t[j].stamp else t[r].value.None?
    decreases |t| - i
  {
    if i == |t| || t[i].value.None? {
    } else {
      ScanFromMeaning(t, i + 1, if t[i].stamp < t[oldest].stamp then i else oldest);
    }
  }

  /** What a put does to every key. The key put is live with its value; another key is dropped only when
      every slot is live and the key is not among them, and then the dropped one carries a least stamp. */
  lemma PutMeaning(t: Table, key: Key, v: Value, now: int, other: Key)
    requires t != [] && UniqueKeys(t)
    ensures var t' := Put(t, key, v, now);
      && UniqueKeys(t')
      && Lives(t', key) && t'[Find(t', key)] == Entry(key, Some(v), now)
      && (other != key && Lives(t', other) ==> Lives(t, other) && t'[Find(t', other)] == t[Find(t, other)])
      && (other != key && Lives(t, other) && !Lives(t', other) ==>
            && Full(t) && !Lives(t, key)
            && Slot(t, key) == Find(t, other)
            && forall j :: 0 <= j < |t| ==> t[Find(t, other)].stamp <= t[j].stamp)
  {
    var t', slot := Put(t, key, v, now), Slot(t, key);
    SlotMeaning(t, key);
    assert UniqueKeys(t') by {
      PutKeepsUniqueKeys(t, key, v, now);
    }
    HolderLives(t', slot, key);
    if other != key && Lives(t', other) {
      HolderLives(t, Find(t', other), other);
    }
    if other != key && Lives(t, other) && Find(t, other) != slot {
      HolderLives(t', Find(t, other), other);
    }
  }

  lemma SlotMeaning(t: Table, key: Key)
    requires t != []
    ensures var s := Slot(t, key);
      if Lives(t, key) then Holds(t[s], key)
      else if Full(t) then forall j :: 0 <= j < |t| ==> t[s].stamp <= t[j].stamp
      else t[s].value.None?
  {
    ScanFromMeaning(t, 0, 0);
  }

  lemma PutKeepsUniqueKeys(t: Table, key: Key, v: Value, now: int)
    requires t != [] && UniqueKeys(t)
    ensures UniqueKeys(Put(t, key, v, now))
  {
  }

  /** Invalidating a key removes it and nothing else. */
  lemma InvalidateMeaning(t: Table, key: Key, other: Key)
    requires UniqueKeys(t)
    ensures var t' := Invalidate(t, key);
      && UniqueKeys(t')
      && !Lives(t', key)
      && (other != key ==> (Lives(t', other) <==> Lives(t, other)))
      && (other != key && Lives(t, other) ==> t'[Find(t', other)] == t[Find(t, other)])
  {
    var t' := Invalidate(t, key);
    if Lives(t', key) {
      HolderLives(t, Find(t', key), key);
    }
    if other != key && Lives(t, other) {
      HolderLives(t', Find(t, other), other);
    }
    if other != key && Lives(t', other) {
      HolderLives(t, Find(t', other), other);
    }
  }

  /** What the worker does to the cache over time, oldest first. */
  datatype Event =
    | PutEvent(key: Key, value: Value, at: int)
    | InvalidateEvent(key: Key)

  function Initial(): Table {
    seq(ENTRIES, _ => Entry(Key(0, 0, 0), None, 0))
  }

  function Apply(t: Table, e: Event): (t': Table)
    requires t != []
    ensures |t'| == |t|
  {
    match e
    case PutEvent(key, v, at) => Put(t, key, v, at)
    case InvalidateEvent(key) => Invalidate(t, key)
  }

  function Replay(h: seq<Event>): (t: Table)
    ensures |t| == ENTRIES
  {
    if h == [] then Initial() else Apply(Replay(h[..|h| - 1]), h[|h| - 1])
  }
}
