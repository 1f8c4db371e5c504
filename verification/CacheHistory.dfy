/** What whole runs of the read cache guarantee: the table reached by any sequence of puts and
    invalidates agrees with the plain "last put per key" map, apart from evictions, and evictions happen
    only under the stated pressure. */
module CacheHistory {
  import opened Wrappers
  import opened ReadCache

  /** The reference: the position of the latest operation on `key`, if that operation was a put. */
  function LastPut(h: seq<Event>, key: Key): (r: Option<nat>)
    ensures r.Some? ==> r.value < |h| && h[r.value].PutEvent? && h[r.value].key == key
  {
    if h == [] then None
    else
      var last := |h| - 1;
      if h[last].key == key then if h[last].PutEvent? then Some(last) else None
      else LastPut(h[..last], key)
  }

  /** `LastPut` is what its name says: nothing after it touches the key. */
  lemma {:induction false} LastPutIsLast(h: seq<Event>, key: Key)
    ensures match LastPut(h, key)
      case Some(i) => forall j :: i < j < |h| ==> h[j].key != key
      case None =>
        (forall j :: 0 <= j < |h| ==> h[j].key != key) ||
        exists i :: 0 <= i < |h| && h[i] == InvalidateEvent(key) && forall j :: i < j < |h| ==> h[j].key != key
    decreases |h|
  {
    if h == [] {
    } else if h[|h| - 1].key != key {
      LastPutIsLast(h[..|h| - 1], key);
    } else if h[|h| - 1].InvalidateEvent? {
      assert h[|h| - 1] == InvalidateEvent(key);
    }
  }

  /** A put that nothing on its key follows is the last one. */
  lemma {:induction false} LastPutFound(h: seq<Event>, i: nat, key: Key)
    requires i < |h| && h[i].PutEvent? && h[i].key == key && forall j :: i < j < |h| ==> h[j].key != key
    ensures LastPut(h, key) == Some(i)
    decreases |h|
  {
    if i == |h| - 1 {
    } else {
      LastPutFound(h[..|h| - 1], i, key);
    }
  }

  /** The table never holds two live entries for one key, and every live entry is that key's latest put. */
  lemma {:induction false} LiveEntryIsLatestPut(h: seq<Event>, key: Key)
    ensures UniqueKeys(Replay(h))
    ensures Lives(Replay(h), key) ==>
              && LastPut(h, key).Some?
              && var e := h[LastPut(h, key).value];
                 Replay(h)[Find(Replay(h), key)] == Entry(key, Some(e.value), e.at)
    decreases |h|
  {
    if h == [] {
    } else {
      var before, e := h[..|h| - 1], h[|h| - 1];
      LiveEntryIsLatestPut(before, key);
      match e
      case PutEvent(k, v, at) => PutMeaning(Replay(before), k, v, at, key);
      case InvalidateEvent(k) => InvalidateMeaning(Replay(before), k, key);
    }
  }

  /** A hit is exactly the value of the latest put on that key, of the kind asked for, with no later
      invalidate, and less than 30,000,000 microseconds old. */
  lemma HitIsLatestPut(h: seq<Event>, key: Key, kind: Kind, now: int)
    ensures match Get(Replay(h), key, kind, now)
      case Some(v) =>
        && LastPut(h, key).Some?
        && var e := h[LastPut(h, key).value];
           v == e.value && KindOf(v) == kind && now - e.at < 30_000_000
      case None => true
  {
    LiveEntryIsLatestPut(h, key);
    var t := Replay(h);
    if Lives(t, key) {
      FreshMeansUnderThirtySeconds(now, t[Find(t, key)].stamp);
    }
  }

  /** Operation `j` of the history drops the live entry of a key it is not about. */
  predicate EvictsAt(h: seq<Event>, j: nat, key: Key)
    requires j < |h|
  {
    h[j].key != key && Lives(Replay(h[..j]), key) && !Lives(Replay(h[..j + 1]), key)
  }

  lemma ReplayStep(h: seq<Event>, j: nat)
    requires j < |h|
    ensures Replay(h[..j + 1]) == Apply(Replay(h[..j]), h[j])
  {
    assert h[..j + 1][..j] == h[..j];
  }

  lemma StepOnLiveness(h: seq<Event>, j: nat, key: Key)
    requires j < |h|
    ensures Lives(Replay(h[..j + 1]), key) <==>
            if h[j].key == key then h[j].PutEvent? else Lives(Replay(h[..j]), key) && !EvictsAt(h, j, key)
  {
    ReplayStep(h, j);
    LiveEntryIsLatestPut(h[..j], key);
    match h[j]
    case PutEvent(k, v, at) => PutMeaning(Replay(h[..j]), k, v, at, key);
    case InvalidateEvent(k) => InvalidateMeaning(Replay(h[..j]), k, key);
  }

  /** No operation strictly between positions `i` and `n` evicts the key. */
  ghost predicate Kept(h: seq<Event>, i: nat, n: nat, key: Key)
    requires n <= |h|
  {
    forall j :: i < j < n ==> !EvictsAt(h, j, key)
  }

  lemma {:induction false} PrefixLiveness(h: seq<Event>, n: nat, key: Key)
    requires n <= |h|
    ensures var last := LastPut(h[..n], key);
      Lives(Replay(h[..n]), key) <==> last.Some? && Kept(h, last.value, n, key)
  {
    hide Lives, Replay, LastPut, EvictsAt;
    if n == 0 {
      NothingPut(h, key);
    } else {
      PrefixLiveness(h, n - 1, key);
      StepOnLiveness(h, n - 1, key);
      LastPutStep(h, n - 1, key);
    }
  }

  lemma NothingPut(h: seq<Event>, key: Key)
    ensures LastPut(h[..0], key) == None && !Lives(Replay(h[..0]), key)
  {
  }

  lemma LastPutStep(h: seq<Event>, n: nat, key: Key)
    requires n < |h|
    ensures LastPut(h[..n + 1], key) ==
            if h[n].key != key then LastPut(h[..n], key) else if h[n].PutEvent? then Some(n) else None
  {
    assert h[..n + 1][..n] == h[..n];
  }

  /** A key is live exactly when its latest operation is a put that no later operation evicted. */
  lemma LiveExactlyWhenPutAndKept(h: seq<Event>, key: Key)
    ensures var last := LastPut(h, key);
      Lives(Replay(h), key) <==> last.Some? && Kept(h, last.value, |h|, key)
  {
    assert h[..|h|] == h;
    PrefixLiveness(h, |h|, key);
  }

  /** Hits in full: the cache answers exactly when the plain map would, the entry is young enough and it
      has not been evicted. */
  lemma HitExactly(h: seq<Event>, key: Key, kind: Kind, now: int)
    ensures Get(Replay(h), key, kind, now).Some? <==>
            && LastPut(h, key).Some?
            && KindOf(h[LastPut(h, key).value].value) == kind
            && now - h[LastPut(h, key).value].at < 30_000_000
            && Kept(h, LastPut(h, key).value, |h|, key)
  {
    LiveEntryIsLatestPut(h, key);
    LiveExactlyWhenPutAndKept(h, key);
    var t := Replay(h);
    if Lives(t, key) {
      FreshMeansUnderThirtySeconds(now, t[Find(t, key)].stamp);
    }
  }

  /** The keys of the live slots among the first `n`. */
  function LiveKeys(t: Table, n: nat): set<Key>
    requires n <= |t|
  {
    if n == 0 then {}
    else LiveKeys(t, n - 1) + if t[n - 1].value.Some? then {t[n - 1].key} else {}
  }

  lemma {:induction false} SlotOfLiveKey(t: Table, n: nat, key: Key) returns (i: nat)
    requires n <= |t| && key in LiveKeys(t, n)
    ensures i < n && Holds(t[i], key) && Lives(t, key)
  {
    if t[n - 1].value.Some? && t[n - 1].key == key {
      i := n - 1;
      HolderLives(t, i, key);
    } else {
      i := SlotOfLiveKey(t, n - 1, key);
    }
  }

  lemma {:induction false} LiveKeyOfSlot(t: Table, n: nat, i: nat)
    requires i < n <= |t| && t[i].value.Some?
    ensures t[i].key in LiveKeys(t, n)
  {
    if i == n - 1 {
    } else {
      LiveKeyOfSlot(t, n - 1, i);
    }
  }

  lemma {:induction false} LiveKeysOfFullTable(t: Table, n: nat)
    requires n <= |t| && UniqueKeys(t) && Full(t)
    ensures |LiveKeys(t, n)| == n
  {
    if n == 0 {
    } else {
      LiveKeysOfFullTable(t, n - 1);
      if t[n - 1].key in LiveKeys(t, n - 1) {
        var i := SlotOfLiveKey(t, n - 1, t[n - 1].key);
        assert false;
      }
    }
  }

  /** The pressure behind an eviction: the operation is a put of a key that was not live, all 64 slots
      held live distinct keys, and each of the 63 other keys was last put at or after the time the victim
      was last put. */
  lemma EvictionNeedsPressure(h: seq<Event>, j: nat, victim: Key) returns (others: set<Key>)
    requires j < |h| && EvictsAt(h, j, victim)
    ensures h[j].PutEvent? && !Lives(Replay(h[..j]), h[j].key)
    ensures |others| == ENTRIES - 1 && victim !in others && h[j].key !in others
    ensures LastPut(h[..j], victim).Some?
    ensures forall k :: k in others ==>
              && Lives(Replay(h[..j]), k)
              && LastPut(h[..j], k).Some?
              && h[LastPut(h[..j], victim).value].at <= h[LastPut(h[..j], k).value].at
  {
    var before, t := h[..j], Replay(h[..j]);
    ReplayStep(h, j);
    LiveEntryIsLatestPut(before, victim);
    match h[j] {
      case PutEvent(k, v, at) => PutMeaning(t, k, v, at, victim);
      case InvalidateEvent(k) => InvalidateMeaning(t, k, victim);
    }
    LiveKeysOfFullTable(t, |t|);
    LiveKeyOfSlot(t, |t|, Find(t, victim));
    others := LiveKeys(t, |t|) - {victim};
    forall k | k in others
      ensures Lives(t, k)
      ensures LastPut(before, k).Some? && h[LastPut(before, victim).value].at <= h[LastPut(before, k).value].at
    {
      var i := SlotOfLiveKey(t, |t|, k);
      LiveEntryIsLatestPut(before, k);
    }
  }

  lemma SubsetIsNoLarger<T>(a: set<T>, b: set<T>)
    requires a <= b
    ensures |a| <= |b|
  {
    if a == {} {
    } else {
      var x :| x in a;
      SubsetIsNoLarger(a - {x}, b - {x});
    }
  }

  /** A run that puts at most 64 distinct keys never evicts. */
  lemma NoEvictionWithinCapacity(h: seq<Event>, keys: set<Key>, j: nat, victim: Key)
    requires forall i :: 0 <= i < |h| && h[i].PutEvent? ==> h[i].key in keys
    requires |keys| <= ENTRIES
    requires j < |h|
    ensures !EvictsAt(h, j, victim)
  {
    hide UniqueKeys, Replay, LastPut, Find;
    if EvictsAt(h, j, victim) {
      var others := EvictionNeedsPressure(h, j, victim);
      var t := Replay(h[..j]);
      LiveEntryIsLatestPut(h[..j], victim);
      forall k | k in others + {victim, h[j].key}
        ensures k in keys
      {
        if k != h[j].key {
          LiveEntryIsLatestPut(h[..j], k);
        }
      }
      SubsetIsNoLarger(others + {victim, h[j].key}, keys);
    }
  }

  /** So over at most 64 distinct keys the cache is the plain map with an age limit. */
  lemma WithinCapacityCacheIsLastPutMap(h: seq<Event>, keys: set<Key>, key: Key, kind: Kind, now: int)
    requires forall i :: 0 <= i < |h| && h[i].PutEvent? ==> h[i].key in keys
    requires |keys| <= ENTRIES
    ensures Get(Replay(h), key, kind, now) ==
            match LastPut(h, key)
            case Some(i) =>
              if KindOf(h[i].value) == kind && now - h[i].at < 30_000_000 then Some(h[i].value) else None
            case None => None
  {
    HitExactly(h, key, kind, now);
    HitIsLatestPut(h, key, kind, now);
    if LastPut(h, key).Some? {
      forall j | LastPut(h, key).value < j < |h|
        ensures !EvictsAt(h, j, key)
      {
        NoEvictionWithinCapacity(h, keys, j, key);
      }
    }
  }

  /** The distinct other keys put since the key's own last put. */
  function PutSince(h: seq<Event>, key: Key): set<Key> {
    if h == [] || h[|h| - 1].key == key then {}
    else PutSince(h[..|h| - 1], key) + {h[|h| - 1].key}
  }

  /** A run of puts, each later than the one before. */
  ghost predicate StrictPuts(h: seq<Event>) {
    && (forall i :: 0 <= i < |h| ==> h[i].PutEvent?)
    && (forall i, j :: 0 <= i < j < |h| ==> h[i].at < h[j].at)
  }

  /** In such a run a key has been put since another's last put exactly when its own last put is the later one. */
  lemma {:induction false} PutSinceMeaning(h: seq<Event>, key: Key, other: Key)
    requires StrictPuts(h) && LastPut(h, key).Some?
    ensures other in PutSince(h, key) <==>
            other != key && LastPut(h, other).Some? && LastPut(h, key).value < LastPut(h, other).value
    decreases |h|
  {
    if h[|h| - 1].key == key {
    } else {
      PutSinceMeaning(h[..|h| - 1], key, other);
    }
  }

  lemma PutSinceStep(h: seq<Event>, e: Event, key: Key)
    requires e.key != key
    ensures PutSince(h + [e], key) == PutSince(h, key) + {e.key}
    ensures LastPut(h + [e], key) == LastPut(h, key)
  {
    assert (h + [e])[..|h|] == h;
  }

  lemma Smaller<T>(a: set<T>, x: T, b: set<T>)
    requires x in b && a <= b - {x}
    ensures |a| < |b|
  {
    SubsetIsNoLarger(a, b - {x});
  }

  lemma LastPutsDiffer(h: seq<Event>, a: Key, b: Key)
    requires a != b && LastPut(h, a).Some? && LastPut(h, b).Some?
    ensures LastPut(h, a).value != LastPut(h, b).value
  {
  }

  /** Of the keys put since, each has fewer put since it. */
  lemma LaterKeysAreYounger(h: seq<Event>, key: Key, other: Key)
    requires StrictPuts(h) && LastPut(h, key).Some? && other in PutSince(h, key)
    ensures LastPut(h, other).Some? && |PutSince(h, other)| < |PutSince(h, key)|
  {
    hide LastPut, PutSince;
    PutSinceMeaning(h, key, other);
    forall k | k in PutSince(h, other) ensures k in PutSince(h, key) - {other} {
      PutSinceMeaning(h, other, k);
      PutSinceMeaning(h, key, k);
    }
    Smaller(PutSince(h, other), other, PutSince(h, key));
  }

  /** The condition on the history alone. */
  predicate Recent(h: seq<Event>, key: Key) {
    LastPut(h, key).Some? && |PutSince(h, key)| < ENTRIES
  }

  ghost predicate LiveIffRecent(h: seq<Event>) {
    forall key :: Lives(Replay(h), key) <==> Recent(h, key)
  }

  /** If a key is evicted, 64 others have been put since its last put. */
  lemma EvictedIsNotRecent(h: seq<Event>, e: Event, key: Key)
    requires StrictPuts(h + [e]) && EvictsAt(h + [e], |h|, key)
    ensures !Recent(h + [e], key)
  {
    hide Lives, Replay, PutSince, UniqueKeys, Find;
    assert (h + [e])[..|h|] == h;
    assert StrictPuts(h);
    var others := EvictionNeedsPressure(h + [e], |h|, key);
    forall k | k in others ensures k in PutSince(h, key) {
      LastPutsDiffer(h, key, k);
      PutSinceMeaning(h, key, k);
    }
    PutSinceStep(h, e, key);
    SubsetIsNoLarger(others + {e.key}, PutSince(h + [e], key));
  }

  /** A live key with 63 others put since is the victim of the next put of a further one. */
  lemma OldestIsEvicted(h: seq<Event>, e: Event, key: Key)
    requires StrictPuts(h + [e]) && LiveIffRecent(h)
    requires Lives(Replay(h), key) && |PutSince(h, key)| == ENTRIES - 1 && e.key != key && e.key !in PutSince(h, key)
    ensures !Lives(Replay(h + [e]), key)
  {
    hide LastPut, PutSince, Find;
    assert StrictPuts(h) by {
      assert forall i :: 0 <= i < |h| ==> h[i] == (h + [e])[i];
    }
    assert (h + [e])[|h|] == e;
    var t, since := Replay(h), PutSince(h, key);
    assert key !in since by {
      PutSinceMeaning(h, key, key);
    }
    assert Recent(h, key);
    forall k | k in since ensures Lives(t, k) && LastPut(h, key).value < LastPut(h, k).value {
      LaterKeysAreYounger(h, key, k);
      PutSinceMeaning(h, key, k);
      assert Recent(h, k);
    }
    FullOfThese(h, since + {key});
    assert !Lives(t, e.key);
    LeastIsVictim(h, e, key, since);
  }

  /** Sixty-four live keys fill the table, and no other key is live. */
  lemma FullOfThese(h: seq<Event>, keys: set<Key>)
    requires |keys| == ENTRIES && forall k :: k in keys ==> Lives(Replay(h), k)
    ensures Full(Replay(h))
    ensures forall k :: Lives(Replay(h), k) ==> k in keys
  {
    var t := Replay(h);
    forall k | k in keys ensures k in LiveKeys(t, |t|) {
      LiveKeyOfSlot(t, |t|, Find(t, k));
    }
    LiveKeysAtMost(t, |t|);
    SameWhenAsLarge(keys, LiveKeys(t, |t|));
    forall i | 0 <= i < |t| ensures t[i].value.Some? {
      if t[i].value.None? {
        HoleMakesFewer(t, |t|, i);
      }
    }
    forall k | Lives(t, k) ensures k in keys {
      LiveKeyOfSlot(t, |t|, Find(t, k));
    }
  }

  lemma SameWhenAsLarge<T>(a: set<T>, b: set<T>)
    requires a <= b && |b| <= |a|
    ensures a == b
  {
    assert b == a + (b - a);
  }

  /** How many live keys a slot adds at most. */
  lemma LiveKeysStep(t: Table, n: nat)
    requires n < |t|
    ensures |LiveKeys(t, n + 1)| <= |LiveKeys(t, n)| + if t[n].value.Some? then 1 else 0
  {
    var before, key := LiveKeys(t, n), t[n].key;
    if t[n].value.None? {
      assert LiveKeys(t, n + 1) == before;
    } else {
      assert key in before ==> before + {key} == before;
    }
  }

  lemma {:induction false} LiveKeysAtMost(t: Table, n: nat)
    requires n <= |t|
    ensures |LiveKeys(t, n)| <= n
  {
    if n == 0 {
    } else {
      hide LiveKeys;
      LiveKeysAtMost(t, n - 1);
      LiveKeysStep(t, n - 1);
    }
  }

  lemma {:induction false} HoleMakesFewer(t: Table, n: nat, i: nat)
    requires i < n <= |t| && t[i].value.None?
    ensures |LiveKeys(t, n)| < n
  {
    hide LiveKeys;
    LiveKeysStep(t, n - 1);
    if i == n - 1 {
      LiveKeysAtMost(t, n - 1);
    } else {
      HoleMakesFewer(t, n - 1, i);
    }
  }

  lemma LeastIsVictim(h: seq<Event>, e: Event, key: Key, since: set<Key>)
    requires e.PutEvent? && StrictPuts(h) && e.key != key
    requires Full(Replay(h)) && !Lives(Replay(h), e.key) && Lives(Replay(h), key)
    requires forall k :: Lives(Replay(h), k) ==> k in since + {key}
    requires LastPut(h, key).Some?
    requires forall k :: k in since ==> LastPut(h, k).Some? && LastPut(h, key).value < LastPut(h, k).value
    ensures !Lives(Replay(h + [e]), key)
  {
    var t := Replay(h);
    LiveEntryIsLatestPut(h, key);
    SlotMeaning(t, e.key);
    var s := Slot(t, e.key);
    var k := t[s].key;
    HolderLives(t, s, k);
    LiveEntryIsLatestPut(h, k);
    assert t[s].stamp <= t[Find(t, key)].stamp;
    assert k == key;
    ReplayAppend(h, e);
    PutMeaning(t, e.key, e.value, e.at, key);
    if Lives(Replay(h + [e]), key) {
      NoSlotLeft(t, e, key);
    }
  }

  lemma NoSlotLeft(t: Table, e: Event, key: Key)
    requires e.PutEvent? && UniqueKeys(t) && e.key != key && Lives(t, key) && Slot(t, e.key) == Find(t, key)
    requires t != []
    ensures !Lives(Put(t, e.key, e.value, e.at), key)
  {
    forall i | 0 <= i < |t| && i != Slot(t, e.key) ensures !Holds(t[i], key) {
      if Holds(t[i], key) {
        HolderLives(t, i, key);
      }
    }
  }

  lemma ReplayAppend(h: seq<Event>, e: Event)
    ensures Replay(h + [e]) == Apply(Replay(h), e)
  {
    assert (h + [e])[..|h|] == h;
  }

  lemma LiveStep(h: seq<Event>, e: Event, key: Key)
    requires StrictPuts(h + [e]) && LiveIffRecent(h)
    ensures Lives(Replay(h + [e]), key) <==> Recent(h + [e], key)
  {
    hide Lives, Replay, LastPut, PutSince, UniqueKeys, Find, EvictsAt;
    var h' := h + [e];
    assert h'[..|h|] == h && h'[..|h| + 1] == h';
    StepOnLiveness(h', |h|, key);
    if e.key == key {
      JustPut(h, e);
    } else {
      PutSinceStep(h, e, key);
      assert Recent(h, key) <==> Lives(Replay(h), key);
      if Recent(h', key) {
        SubsetIsNoLarger(PutSince(h, key), PutSince(h', key));
        if EvictsAt(h', |h|, key) {
          EvictedIsNotRecent(h, e, key);
        }
      } else if Lives(Replay(h'), key) {
        LimitReached(PutSince(h, key), e.key);
        OldestIsEvicted(h, e, key);
      }
    }
  }

  lemma LimitReached(since: set<Key>, k: Key)
    requires |since| < ENTRIES <= |since + {k}|
    ensures |since| == ENTRIES - 1 && k !in since
  {
    assert k in since ==> since + {k} == since;
  }

  lemma JustPut(h: seq<Event>, e: Event)
    requires e.PutEvent?
    ensures Recent(h + [e], e.key)
  {
  }

  /** For puts at increasing times the cache holds exactly the 64 keys put last: a key is live if and only if at most
      63 other distinct keys have been put since its own last put. */
  lemma {:induction false} LiveExactlyWhenRecent(h: seq<Event>)
    requires StrictPuts(h)
    ensures forall key :: Lives(Replay(h), key) <==> LastPut(h, key).Some? && |PutSince(h, key)| <= 63
    decreases |h|
  {
    if h == [] {
    } else {
      var before, e := h[..|h| - 1], h[|h| - 1];
      assert h == before + [e];
      LiveExactlyWhenRecent(before);
      forall key ensures Lives(Replay(h), key) <==> LastPut(h, key).Some? && |PutSince(h, key)| <= 63 {
        LiveStep(before, e, key);
      }
    }
  }
}
