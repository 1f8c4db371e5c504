# A verified model of the BACnet bridge firmware

This project models the parts of the bridge firmware that carry most of its branching and state, and proves
what they guarantee: over every input, every run, or every interleaving. It is plain Dafny 4.11; `dafny verify
dfyconfig.toml` checks all of it.

Code of the firmware that updates state in place is an imperative class or method here (the read cache, the
transaction engine, the discovery table, the Boost variables, the log ring, the printers, the encoders, the JSON
pair). Each is proved against a specification function, and the theorems are about that function. Code whose
point is the interleaving of tasks (the firmware upload, the worker's scheduler, the Wi-Fi handlers) is a step
relation with an inductive invariant.

| file | what it models |
|---|---|
| `Ota.dfy` | the HTTP task and the flash worker of a firmware upload, interleaved at every shared access |
| `ReadCache.dfy`, `CacheHistory.dfy`, `CacheCalls.dfy` | the 64-slot read cache, its whole runs against a "last put per key" map, and both in terms of the callers' arguments |
| `Coherence.dfy` | the typed read and write helpers over that cache, the worker's shared value and a device that also changes on its own |
| `Transaction.dfy` | the reply handlers, the single transaction slot of the stack, the wait loop, health |
| `Worker.dfy` | queues, main loop, circuit breaker and background probes |
| `Discovery.dfy` | the discovery table with its cap of eight |
| `Octets.dfy`, `Transmit.dfy`, `Tags.dfy`, `AppData.dfy` | integers, tags and application values of ANSI/ASHRAE Standard 135, section 20.2 |
| `PropertyValue.dfy`, `Address.dfy` | BACnetPropertyValue, BACnetAddress and BACnetAddressBinding of clause 21 |
| `Printing.dfy` | texts built from `snprintf` pieces |
| `Station.dfy` | Wi-Fi reconnect timer and reboot backstop |
| `Boost.dfy` | the Boost timer |
| `JsonText.dfy` | `json_escape` and `json_get_str` |
| `LogRing.dfy` | the in-memory log |
| `Wrappers.dfy` | an option type and two stock definitions |

## What the proofs found

Where the code keeps an intuitive property only under a condition, the exact condition is proved for all inputs or
runs, and a lemma shows it fail at an input.

- A reply from another address does affect a transaction: the handlers compare the sender, but the stack frees
  its transaction slot for any sender, so a foreign reply with the current invoke id ends the wait as a time-out.
  `ForeignReplyEndsTheWait` is the run, `ForeignRepliesExactly` says exactly when it happens. Replies with other
  invoke ids are harmless (`OtherIdsAreHarmless`).
- A BACnetPropertyValue is encoded with any list of values, but its decoder ends the list at every value it decodes,
  so only lists of exactly one value come back and all others are rejected. And without a priority it is decoded
  wrongly when what follows it in the buffer starts with context tag 3. There is no other exception
  (`PropertyValueRoundTrip`); `PriorityIsTaken` shows the second one at the octets 39 08.
- A BACnetAddress comes back net-same exactly when it is `Carriable`; a broadcast with a recorded router MAC is not,
  because the encoder then sends the router's MAC (`AddressRoundTrip`, `RoutedBroadcastChanges`). Binding comparison
  is the strict one, so a remote device with a recorded router MAC differs from its own decoded encoding
  (`BindingRoundTrip`, `RoutedBindingDiffers`).
- A date outside 1900 to 2155 and an object identifier wider than 10 and 22 bits do not survive the wire
  (`EarlyDateChanges`, `WideInstanceChanges`); every other primitive value the code can build does
  (`AppDataRoundTrip`).
- All reads share one decoded value, which is never cleared. An acknowledgement without a value, because the property
  is an empty list or because a write's acknowledgement arrives with the read's invoke id, counts as received and
  leaves it alone, so the read returns an earlier read's value and the typed helper caches it
  (`ReadAnsweredWithEarlierValue`, `StaleRead`). The value is the read's own exactly when the deciding PDU carries one
  (`ValueIsOwnExactly`).
- The age of a cached read counts from when the answer was stored, so a value can be older than 30 s by what the
  fetching call waited (`OldestRead`). Together: a bound holds for all reads of all runs exactly when no answer comes
  without a value and the bound is at least 30 s plus the longest wait (`ReadAgeExactly`), and 30 s hold exactly when,
  besides, answers come back at once (`ThirtySecondsExactly`).
- An accepted high-priority request is completed within 26 steps of the worker. For a normal one the number grows with
  the high-priority requests that start meanwhile (`NormalPriorityCompletes`) and has no bound without them: however
  many steps the worker takes, there is a run through all of which it waits (`NormalPriorityCanStarve`).
- The reboot backstop reads the loss stamp twice. An IP that arrives after its IP check can zero the stamp, and the
  time since boot is what gets compared with 600 s: a station with an IP can reboot (`SpuriousReboot`).
  `RebootExactly` says exactly when a reboot follows more than 600 s without IP; without such an arrival it always
  does (`RebootOnlyAfterStall`).
- For a boost that somebody else started, lowering the timeout does not re-arm the deadline, so the remaining
  minutes can exceed the timeout (`ExternalRemainingExceedsTimeout`); `RemainingExceedsTimeoutExactly` says when.
- `json_escape` stops when fewer than three octets are left, so a text may lose its last character although it
  would have fitted (`LastCharacterIsLost`; `WholeTextIsKept` is the exact condition).
- `json_get_str` takes the end of an earlier value for a key when, behind the value's last double quote, it spells
  that key; the field is then not found (`ValueHidesField`). It never returns another field's value
  (`OwnValueExactly`).
- A log line is kept as formatted exactly when it is shorter than 256 characters (`LineIsKeptExactly`): the copy loop
  runs over the untruncated length.
- A comment in the Wi-Fi code announces a backoff of exactly 15 s for late retries; with the jitter it is below
  15.5 s, and that is what is proved.

`AppData.dfy` also fixes the direction of the encodings at examples of the standard (`IntegerExamples`,
`ObjectIdExample`, `OtherExamples`).

## Model

Sources under `firmware/bacnet_bridge`. Lemmas and methods are listed by what their contract states.

| member | source | states |
|---|---|---|
| `Ota.StepKeepsInv` | firmware/bacnet_bridge/main/main.c:2891-2998 | every statement of either task keeps the pipeline invariant: until a failure is recorded, written octets followed by the chunks in flight are exactly what was sent |
| `Ota.SwitchOnlyWholeImage` | firmware/bacnet_bridge/main/main.c:2909-2935 | under every interleaving, chunk size and failure, the boot partition is switched only if the octets written are the whole request body in order |
| `Ota.ResultReplyAndSwitchAgree` | firmware/bacnet_bridge/main/main.c:2935-3002 | the worker's result is OK iff the switch happened, and the HTTP reply is a success iff it happened |
| `Ota.SuccessExactlyWhenNothingFails` | firmware/bacnet_bridge/main/main.c:2966-3002 | the reply is a success iff no receive, queue send or flash call of the run failed |
| `Ota.NoUseAfterFree` | firmware/bacnet_bridge/main/main.c:2935-2995 | once the session is freed, no task has a step left that could use it |
| `Ota.NoDeadlock` | firmware/bacnet_bridge/main/main.c:2909-2990 | every reachable state either has the reply out, the session freed and the worker gone, or some enabled step |
| `Ota.UploadEnds` | firmware/bacnet_bridge/main/main.c:2966-2990 | apart from receive time-outs no interleaving has more than four steps per body octet plus twelve |
| `Ota.ChunksExactly` | firmware/bacnet_bridge/main/main.c:2909-2925 | what the worker does with each chunk: it writes only data chunks, and only until a failure |
| `Ota.TransfersExactly` | firmware/bacnet_bridge/main/main.c:2962-2984 | when the HTTP task can receive, send and time out |
| `Ota.PipelineIsBounded` | firmware/bacnet_bridge/main/main.c:2962-2984 | the queue never holds more than two chunks, and no chunk more than 512 octets |
| `ReadCache.FreshMeansUnderThirtySeconds` | firmware/bacnet_bridge/components/bacnet_client/bacnet_worker.c:147-148 | the truncating millisecond comparison accepts exactly the ages below 30,000,000 microseconds |
| `ReadCache.ScanFromMeaning` | firmware/bacnet_bridge/components/bacnet_client/bacnet_worker.c:128-137 | the replacement scan picks a free slot if there is one and otherwise a slot with the least stamp |
| `ReadCache.PutMeaning` | firmware/bacnet_bridge/components/bacnet_client/bacnet_worker.c:122-179 | after a put the key is live with that value; another key is dropped only when all slots are live and the key is not among them, and then the dropped one has the least stamp |
| `ReadCache.InvalidateMeaning` | firmware/bacnet_bridge/components/bacnet_client/bacnet_worker.c:181-191 | an invalidate removes that key and leaves every other live entry as it was |
| `CacheHistory.LiveEntryIsLatestPut` | firmware/bacnet_bridge/components/bacnet_client/bacnet_worker.c:109-191 | in every reachable table keys are unique and a live entry is that key's latest put, with its value and time |
| `CacheHistory.HitIsLatestPut` | firmware/bacnet_bridge/components/bacnet_client/bacnet_worker.c:140-159 | a hit is the value of the latest put on that key, of the kind asked for, not invalidated since, and less than 30 s old |
| `CacheHistory.HitExactly` | firmware/bacnet_bridge/components/bacnet_client/bacnet_worker.c:109-191 | the cache hits iff the last-put map has the key with that kind, young enough and not evicted since |
| `CacheHistory.LiveExactlyWhenPutAndKept` | firmware/bacnet_bridge/components/bacnet_client/bacnet_worker.c:109-191 | a key is live iff its latest operation is a put that no later operation evicted |
| `CacheHistory.EvictionNeedsPressure` | firmware/bacnet_bridge/components/bacnet_client/bacnet_worker.c:122-179 | an eviction happens only at a put of a key not live, with 63 other live keys last put at or after the victim's last put |
| `CacheHistory.NoEvictionWithinCapacity` | firmware/bacnet_bridge/components/bacnet_client/bacnet_worker.c:122-179 | a run that puts at most 64 distinct keys never evicts |
| `CacheHistory.WithinCapacityCacheIsLastPutMap` | firmware/bacnet_bridge/components/bacnet_client/bacnet_worker.c:109-191 | over at most 64 keys every lookup equals the lookup in the last-put map with an age limit |
| `CacheHistory.LiveExactlyWhenRecent` | firmware/bacnet_bridge/components/bacnet_client/bacnet_worker.c:122-179 | after puts at increasing times a key is live iff at most 63 other distinct keys have been put since its own last put |
| `CacheCalls.HitsAreLatestPuts` | firmware/bacnet_bridge/components/bacnet_client/bacnet_worker.c:109-191 | a hit is what the latest call about the same 16-bit type, instance and property stored, of the kind asked for and less than 30 s ago; with at most 64 properties in play every such value is hit |
| `CacheCalls.AfterDrop` | firmware/bacnet_bridge/components/bacnet_client/bacnet_worker.c:181-191 | an invalidate takes away exactly the property with that 16-bit type, instance and property identifier |
| `CacheCalls.AfterPut` | firmware/bacnet_bridge/components/bacnet_client/bacnet_worker.c:161-179 | a put answers for exactly its property from then on; any other answer stays or is evicted |
| `CacheCalls.Cache.FindSlot` | firmware/bacnet_bridge/components/bacnet_client/bacnet_worker.c:109-120 | finds the first live slot whose 16-bit type, instance and property are those asked for, or none |
| `CacheCalls.Cache.ChooseSlot` | firmware/bacnet_bridge/components/bacnet_client/bacnet_worker.c:122-138 | returns the slot the specification chooses |
| `CacheCalls.Cache.Lookup` | firmware/bacnet_bridge/components/bacnet_client/bacnet_worker.c:140-159 | a hit is the value of the latest put of that very property, and the answer is the one the calls so far determine |
| `CacheCalls.Cache.Store` | firmware/bacnet_bridge/components/bacnet_client/bacnet_worker.c:161-179 | the slots are what the calls so far, this put included, make of them |
| `CacheCalls.Cache.Drop` | firmware/bacnet_bridge/components/bacnet_client/bacnet_worker.c:181-191 | the slots are what the calls so far, this invalidate included, make of them |
| `Coherence.StepOnEntry` | firmware/bacnet_bridge/components/bacnet_client/bacnet_worker.c:451-466 | an entry that lives after a step was stored by it or lived before, unchanged and not written with acknowledgement |
| `Coherence.EntrySource` | firmware/bacnet_bridge/components/bacnet_client/bacnet_worker.c:776-803 | every live entry goes back to a question about its key with no acknowledged write since, and holds what the worker answered |
| `Coherence.ReadOrigin` | firmware/bacnet_bridge/components/bacnet_client/bacnet_worker.c:776-933 | every successful typed read goes back to a question about its property less than 30 s (plus the fetching call's wait) ago, with no acknowledged write since, and returns what the worker answered, its shared value included |
| `Coherence.ReadsAreCoherent` | firmware/bacnet_bridge/components/bacnet_client/bacnet_worker.c:776-933 | if the answers about a property carry values, every successful read of it returns a value the device held less than 30 s (plus the wait) ago and not before the last acknowledged write |
| `Coherence.ReadsMeanWhatWasHeld` | firmware/bacnet_bridge/components/bacnet_client/bacnet_worker.c:776-933 | then a REAL is the one the device held, a truth value says whether the enumerated it held was nonzero, a multi-state value is the unsigned it held modulo 2^32 |
| `Coherence.FetchSucceedsExactly` | firmware/bacnet_bridge/components/bacnet_client/bacnet_worker.c:794-801 | a fetched read succeeds iff the answer is a REAL, an enumerated or an unsigned, as the kind asks |
| `Coherence.FetchIsCached` | firmware/bacnet_bridge/components/bacnet_client/bacnet_worker.c:794-801 | what a fetched read returns answers reads of that property for 30 s and no longer; a failed one caches nothing |
| `Coherence.CachedReadKeepsKind` | firmware/bacnet_bridge/components/bacnet_client/bacnet_worker.c:147-156 | a value cached under one kind answers no read of another |
| `Coherence.WriteThenRead` | firmware/bacnet_bridge/components/bacnet_client/bacnet_worker.c:806-827 | if the device takes what an acknowledged typed write sends (1 and 0 for truth values), the next read goes to the device and returns the written value |
| `Coherence.StaleRead` | firmware/bacnet_bridge/components/bacnet_client/bacnet_worker.c:235-270 | a valid run in which a read returns and caches the previous read's value for a property that never held it |
| `Coherence.OldestRead` | firmware/bacnet_bridge/components/bacnet_client/bacnet_worker.c:776-803 | for every waiting limit, a valid run without such answers whose cached read returns a value the device last held 30 s plus the limit before, to the microsecond |
| `Coherence.ReadAgeExactly` | firmware/bacnet_bridge/components/bacnet_client/bacnet_worker.c:776-933 | a bound holds for the age of all reads of all runs iff no property may be answered without a value and the bound is at least 30 s plus the waiting limit |
| `Coherence.ThirtySecondsExactly` | firmware/bacnet_bridge/components/bacnet_client/bacnet_worker.c:776-933 | 30 s bound all reads of all runs iff every answer carries a value and comes back at once |
| `Transactions.Engine.OnReadAck` | firmware/bacnet_bridge/components/bacnet_client/bacnet_worker.c:235-270 | an acknowledgement's octets are kept; it is refused iff its header or its value is malformed, and the shared value is overwritten only when there is one |
| `Transactions.Engine.OnRefusal` | firmware/bacnet_bridge/components/bacnet_client/bacnet_worker.c:197-233 | an error, abort or reject sets its status and records its class, code or reason |
| `Transactions.Engine.HandlePdu` | firmware/bacnet_bridge/components/bacnet_client/bacnet_worker.c:197-280 | the registered handler runs for the target's reply with the current invoke id, and the stack's slot is released for any sender |
| `Transactions.Engine.PumpOnce` | firmware/bacnet_bridge/components/bacnet_client/bacnet_worker.c:377-389 | one turn: receive and dispatch, then let the stack's timer give up |
| `Transactions.Engine.Wait` | firmware/bacnet_bridge/components/bacnet_client/bacnet_worker.c:369-428 | the loop computes the specified final state and ending within timeout/20 + 1 turns, and returns true iff answered |
| `Transactions.Engine.Run` | firmware/bacnet_bridge/components/bacnet_client/bacnet_worker.c:430-449 | reset, send and wait together compute the specified transaction, and a success copies the shared value and the octets into the response |
| `Transactions.TransactionOutcome` | firmware/bacnet_bridge/components/bacnet_client/bacnet_worker.c:369-466 | the ending is the one of the first deciding turn; status is OK iff answered; received and errored are never both set; the stack's slot is free again |
| `Transactions.AnsweredExactlyByGoodAck` | firmware/bacnet_bridge/components/bacnet_client/bacnet_worker.c:235-280 | a wait succeeds iff some turn brings a good ack from the target with the current invoke id before any other deciding turn |
| `Transactions.ValueOfAnswer` | firmware/bacnet_bridge/components/bacnet_client/bacnet_worker.c:430-449 | a successful transaction leaves in the shared value what the deciding PDU carried, or what was there before |
| `Transactions.ValueIsOwnExactly` | firmware/bacnet_bridge/components/bacnet_client/bacnet_worker.c:235-280 | the value a read returns is independent of everything earlier iff the PDU that decided it carries a value |
| `Transactions.ReadAnsweredWithEarlierValue` | firmware/bacnet_bridge/components/bacnet_client/bacnet_worker.c:259-280 | an empty value and a write's acknowledgement answer a read with the earlier value |
| `Transactions.RawOfAnswer` | firmware/bacnet_bridge/components/bacnet_client/bacnet_worker.c:255-257 | after a success decided by a read acknowledgement the response holds its first 1476 octets, after one decided by a write acknowledgement those of an earlier read |
| `Transactions.AcknowledgedValuesAreShown` | firmware/bacnet_bridge/main/main.c:795-802 | an acknowledged encoding of at most 16 values comes back from the response value by value |
| `Transactions.RepliesMean` | firmware/bacnet_bridge/components/bacnet_client/bacnet_worker.c:197-233 | errors, aborts and rejects from the target end in their own status and record class, code or reason, each cut to an octet |
| `Transactions.SilenceMeans` | firmware/bacnet_bridge/components/bacnet_client/bacnet_worker.c:377-428 | what malformed acknowledgements, unused services, the stack's time-out, silence and an unsent request end in |
| `Transactions.FailedDecodingSpoils` | firmware/bacnet_bridge/components/bacnet_client/bacnet/bacapp.c:612-643 | a failed decoding overwrites the shared value iff it has read an application tag |
| `Transactions.OtherIdsAreHarmless` | firmware/bacnet_bridge/components/bacnet_client/bacnet_worker.c:197-280 | removing all replies with other invoke ids leaves the ending as it is |
| `Transactions.ForeignReplyEndsTheWait` | firmware/bacnet_bridge/components/bacnet_client/bacnet/basic/service/h_apdu.c:641-740 | a foreign reply with the current invoke id turns a success into a time-out |
| `Transactions.ForeignRepliesExactly` | firmware/bacnet_bridge/components/bacnet_client/bacnet/basic/service/h_apdu.c:641-740 | the ending is the one without foreign replies, unless one with the current invoke id comes before anything that decides |
| `Transactions.HealthCountsExpiries` | firmware/bacnet_bridge/components/bacnet_client/bacnet_worker.c:392-427 | health is ONLINE, DEGRADED or OFFLINE exactly when 0, 1 or 2, or at least 3 waits expired since the last good reply, also across the wrap of the counter |
| `Transactions.TransactionDrivesHealth` | firmware/bacnet_bridge/components/bacnet_client/bacnet_worker.c:369-466 | a transaction changes health and counter by its ending alone |
| `Worker.RunKeepsInv` | firmware/bacnet_bridge/components/bacnet_client/bacnet_worker.c:592-646 | every run of submissions and worker steps keeps the queue and breaker invariants |
| `Worker.EachRequestInExactlyOnePlace` | firmware/bacnet_bridge/components/bacnet_client/bacnet_worker.c:592-770 | each submitted request is exactly once refused, queued, in service or completed; queues never exceed 8 and 24 |
| `Worker.QueuesAreFifo` | firmware/bacnet_bridge/components/bacnet_client/bacnet_worker.c:598-604 | what each queue accepted is what was completed or is in service from it, followed by what waits, in order |
| `Worker.BoundedOvertaking` | firmware/bacnet_bridge/components/bacnet_client/bacnet_worker.c:598-604 | while a high-priority request waits at most one normal one starts, and none unless the worker was already waiting on the normal queue |
| `Worker.HighPriorityIsServedSoon` | firmware/bacnet_bridge/components/bacnet_client/bacnet_worker.c:592-646 | a high-priority request waits for at most 24 steps of the worker, however submissions interleave |
| `Worker.StartedCompletesNext` | firmware/bacnet_bridge/components/bacnet_client/bacnet_worker.c:609-637 | a request in service is completed by the worker's next step |
| `Worker.HighPriorityCompletes` | firmware/bacnet_bridge/components/bacnet_client/bacnet_worker.c:592-646 | an accepted high-priority request is completed within 26 worker steps |
| `Worker.NormalPriorityCompletes` | firmware/bacnet_bridge/components/bacnet_client/bacnet_worker.c:592-646 | an accepted normal-priority request is completed within four worker steps for each one before it, a few of its own, and three for each high-priority request that starts meanwhile |
| `Worker.NormalPriorityWaits` | firmware/bacnet_bridge/components/bacnet_client/bacnet_worker.c:598-604 | the same bound, one step tighter, on how long it waits in its queue |
| `Worker.NormalPriorityCanStarve` | firmware/bacnet_bridge/components/bacnet_client/bacnet_worker.c:598-604 | for every number of rounds, a run that begins with the submission of a normal-priority request and through which it waits at the head of its queue |
| `Worker.CircuitBreaker` | firmware/bacnet_bridge/components/bacnet_client/bacnet_worker.c:585-645 | over every run: health matches the expired waits, no read below high priority sends a PDU after three of them, probes start at least 5 s apart |
| `Worker.ServedRequestSendsExactly` | firmware/bacnet_bridge/components/bacnet_client/bacnet_worker.c:606-646 | in every reachable state a served request is completed, sends once unless it is a read below high priority after three expired waits or its send fails, and its ending counts for the health, so an answer brings an OFFLINE target back |
| `Worker.ProbesExactly` | firmware/bacnet_bridge/components/bacnet_client/bacnet_worker.c:638-645 | the worker probes iff a wait has expired since the last good reply and 5 s have passed since the last probe |
| `Worker.SubmissionsExactly` | firmware/bacnet_bridge/components/bacnet_client/bacnet_worker.c:725-770 | a submission is taken iff its queue holds fewer than 8 (high) or 24 requests, and goes to the end of that queue and nowhere else |
| `Worker.NextIsTheHead` | firmware/bacnet_bridge/components/bacnet_client/bacnet_worker.c:598-604 | service starts with the head of the high queue, or of the normal one after the high queue was found empty |
| `Discovery.DottedIsInjective` | firmware/bacnet_bridge/components/bacnet_client/bacnet_worker.c:296-298 | comparing printed addresses compares the four IP octets |
| `Discovery.DottedReads` | firmware/bacnet_bridge/components/bacnet_client/bacnet_worker.c:296-298 | a printed address is the four octets in decimal, in order, with dots between them |
| `Discovery.RecordOfReply` | firmware/bacnet_bridge/components/bacnet_client/bacnet_worker.c:299-328 | a record's fields in terms of the reply's, the little-endian port with its default and the texts included |
| `Discovery.KnownDevice` | firmware/bacnet_bridge/components/bacnet_client/bacnet_worker.c:309-314 | a repeat of a stored device keeps the table exact without a change |
| `Discovery.StoreUnknown` | firmware/bacnet_bridge/components/bacnet_client/bacnet_worker.c:316-328 | storing a new device with room left keeps the table exact |
| `Discovery.CountUnknown` | firmware/bacnet_bridge/components/bacnet_client/bacnet_worker.c:316-317 | counting a device that a full table does not hold keeps the table exact, also when it was counted before |
| `Discovery.Table.Restart` | firmware/bacnet_bridge/components/bacnet_client/bacnet_worker.c:468-472 | a pass starts with an empty, exact table |
| `Discovery.Table.OnIAm` | firmware/bacnet_bridge/components/bacnet_client/bacnet_worker.c:282-329 | after each reply the stored records, texts included, are distinct, number min(8, distinct responders), are each as first heard, and the seen count exceeds them iff more than 8 answered |
| `Discovery.Table.Report` | firmware/bacnet_bridge/components/bacnet_client/bacnet_worker.c:981-1001 | the caller gets responders only, as many as fit, and the truncation flag is raised iff more distinct devices answered than were returned |
| `Octets.BigEndianRoundTrip` | firmware/bacnet_bridge/components/bacnet_client/bacnet/bacint.c:20-76 | reading a big-endian integer back gives the integer written |
| `Octets.SignedRoundTrip` | firmware/bacnet_bridge/components/bacnet_client/bacnet/bacint.c:292-424 | sign extension of the shortest two's complement form restores every 32-bit value |
| `Octets.UnsignedLength` | firmware/bacnet_bridge/components/bacnet_client/bacnet/bacint.c:257-289 | the length is sufficient and the least one |
| `Octets.ReverseBitsMirrors` | firmware/bacnet_bridge/components/bacnet_client/bacnet/bacdcode.c:1519-1549 | bit k from one end becomes bit k from the other |
| `Octets.ReverseBitsTwice` | firmware/bacnet_bridge/components/bacnet_client/bacnet/bacdcode.c:1519-1549 | reversing the bits of an octet twice restores it |
| `Tags.TagOctets` | firmware/bacnet_bridge/components/bacnet_client/bacnet/bacdcode.c:208-277 | tags with numbers up to 14, octet by octet, for every length |
| `Tags.BracketOctets` | firmware/bacnet_bridge/components/bacnet_client/bacnet/bacdcode.c:294-362 | opening and closing tags, octet by octet |
| `Tags.TagRoundTrip` | firmware/bacnet_bridge/components/bacnet_client/bacnet/bacdcode.c:208-580 | every tag number, class and 32-bit length reads back as written and consumes exactly its octets, whatever follows |
| `Tags.OpeningTagRoundTrip` | firmware/bacnet_bridge/components/bacnet_client/bacnet/bacdcode.c:294-320 | the same for opening tags |
| `Tags.ClosingTagRoundTrip` | firmware/bacnet_bridge/components/bacnet_client/bacnet/bacdcode.c:336-362 | the same for closing tags |
| `Tags.WriteTag` | firmware/bacnet_bridge/components/bacnet_client/bacnet/bacdcode.c:208-277 | with or without a buffer the same length; with one exactly the tag's octets are written |
| `Tags.WriteOpeningTag` | firmware/bacnet_bridge/components/bacnet_client/bacnet/bacdcode.c:294-320 | the same for opening tags |
| `Tags.WriteClosingTag` | firmware/bacnet_bridge/components/bacnet_client/bacnet/bacdcode.c:336-362 | the same for closing tags |
| `AppData.DecodeOfEncode` | firmware/bacnet_bridge/components/bacnet_client/bacnet/bacapp.c:472-643 | what decoding makes of any encoded value the C union can hold: the value, with year, type and instance cut |
| `AppData.AppDataRoundTrip` | firmware/bacnet_bridge/components/bacnet_client/bacnet/bacapp.c:160-247 | decode of encode, followed by anything, restores the value and consumes exactly its octets iff the value is in range of the standard |
| `AppData.PrimitiveRoundTrip` | firmware/bacnet_bridge/components/bacnet_client/bacnet/bacapp.c:612-643 | so for every in-range primitive value |
| `AppData.FixedForms` | firmware/bacnet_bridge/components/bacnet_client/bacnet/bacapp.c:160-240 | NULL, booleans, REALs, dates and times octet by octet |
| `AppData.NumberForms` | firmware/bacnet_bridge/components/bacnet_client/bacnet/bacapp.c:180-240 | integers, enumerated values and object identifiers as tag and content, with the standard's tag numbers |
| `AppData.StringForms` | firmware/bacnet_bridge/components/bacnet_client/bacnet/bacapp.c:200-222 | octet, character and bit strings as tag and content, with the standard's tag numbers |
| `AppData.WrongLengthIsMalformed` | firmware/bacnet_bridge/components/bacnet_client/bacnet/bacapp.c:472-577 | context tags, unknown types and lengths a type cannot have are refused |
| `AppData.TruncatedIsMalformed` | firmware/bacnet_bridge/components/bacnet_client/bacnet/bacapp.c:612-643 | every encoded value is refused when cut short anywhere |
| `AppData.WrongObjectIdLength` | firmware/bacnet_bridge/components/bacnet_client/bacnet/bacdcode.c:1995-2013 | an object identifier of another length takes four octets and no value |
| `AppData.UnusedBitsAreCut` | firmware/bacnet_bridge/components/bacnet_client/bacnet/bacdcode.c:1609-1643 | the unused-bits octet counts with its low three bits |
| `AppData.WideEnumeratedIsCut` | firmware/bacnet_bridge/components/bacnet_client/bacnet/bacdcode.c:3968-3987 | an enumerated of more than 32 bits is cut |
| `AppData.EarlyDateChanges` | firmware/bacnet_bridge/components/bacnet_client/bacnet/bacdcode.c:5317-5345 | the year 91 comes back as 1991 |
| `AppData.WideInstanceChanges` | firmware/bacnet_bridge/components/bacnet_client/bacnet/bacdcode.c:2204-2214 | instance 0x400001 comes back as 1 |
| `AppData.DecodeUpToRoundTrip` | firmware/bacnet_bridge/main/main.c:796-815 | decoding the concatenation of encoded values one by one recovers them in order, up to the number of slots |
| `AppData.AllShownExactly` | firmware/bacnet_bridge/main/main.c:796-815 | all values of an encoding of at most 16 are shown iff the last one's text begins before the output cutoff |
| `AppData.DecodePriorityArray` | firmware/bacnet_bridge/main/main.c:796-815 | the loop ends and shows what decoding one value after the other finds, in order, exactly as far as texts begin before the output cutoff |
| `AppData.WriteApplicationData` | firmware/bacnet_bridge/components/bacnet_client/bacnet/bacapp.c:160-247 | with or without a buffer the same length; with one exactly the encoding is written |
| `PropertyValues.ReadPropertyValue` | firmware/bacnet_bridge/components/bacnet_client/bacnet/bacapp.c:5602-5716 | the running-offset decoder computes the specified fields and length, or the error |
| `PropertyValues.PropertyValueRoundTrip` | firmware/bacnet_bridge/components/bacnet_client/bacnet/bacapp.c:5500-5716 | decode of encode, followed by anything, restores all four fields and consumes the exact length iff there is exactly one value and a priority was given or what follows does not start with context tag 3; other lists are rejected |
| `PropertyValues.PropertyValueForm` | firmware/bacnet_bridge/components/bacnet_client/bacnet/bacapp.c:5500-5551 | the whole form octet by octet but for the values: 09, 19 if indexed, 2E, values, 2F, 39 if prioritised |
| `PropertyValues.WideIndexIsRejected` | firmware/bacnet_bridge/components/bacnet_client/bacnet/bacapp.c:5620-5645 | an array index above 32 bits is refused |
| `PropertyValues.WidePriorityIsRejected` | firmware/bacnet_bridge/components/bacnet_client/bacnet/bacapp.c:5690-5708 | a priority above 255 is refused |
| `PropertyValues.PropertyValueAloneRoundTrip` | firmware/bacnet_bridge/components/bacnet_client/bacnet/bacapp.c:5500-5716 | in a buffer of its own every property value with one value comes back |
| `PropertyValues.PriorityIsTaken` | firmware/bacnet_bridge/components/bacnet_client/bacnet/bacapp.c:5684-5713 | followed by the octets 39 08, a property value without priority comes back with priority 8 and two octets more |
| `PropertyValues.EnclosedRoundTrip` | firmware/bacnet_bridge/components/bacnet_client/bacnet/bacapp.c:5646-5682 | the enclosed list is taken iff it has exactly one element |
| `PropertyValues.WritePropertyValue` | firmware/bacnet_bridge/components/bacnet_client/bacnet/bacapp.c:5500-5551 | the pass without a buffer returns the length the writing pass produces, and that writes exactly the encoding |
| `Addresses.CompareAddresses` | firmware/bacnet_bridge/components/bacnet_client/bacnet/bacaddr.c:60-99 | decides, octet by octet, sameness of MACs, networks and, for remote addresses, of the routed parts in use |
| `Addresses.CompareNetAddresses` | firmware/bacnet_bridge/components/bacnet_client/bacnet/bacaddr.c:112-150 | decides, octet by octet, sameness of the two fields the standard's sequence has |
| `Addresses.ComparisonsAreEquivalences` | firmware/bacnet_bridge/components/bacnet_client/bacnet/bacaddr.c:60-150 | both comparisons are equivalence relations and the strict one implies the other |
| `Addresses.AddressRoundTrip` | firmware/bacnet_bridge/components/bacnet_client/bacnet/bacaddr.c:408-559 | decode of encode succeeds with the exact length; the result is net-same iff the address is carriable, and strictly the same iff it also records no router MAC when remote |
| `Addresses.AddressForm` | firmware/bacnet_bridge/components/bacnet_client/bacnet/bacaddr.c:533-559 | the form octet by octet for networks below 256: the routed part if there is one, else the MAC |
| `Addresses.FilledExactly` | firmware/bacnet_bridge/components/bacnet_client/bacnet/bacaddr.c:444-480 | which fields decoding sets, zeroes and keeps |
| `Addresses.WideNetworkIsRejected` | firmware/bacnet_bridge/components/bacnet_client/bacnet/bacaddr.c:424-438 | a network above 16 bits is refused |
| `Addresses.LongAddressIsRejected` | firmware/bacnet_bridge/components/bacnet_client/bacnet/bacaddr.c:440-450 | an address above seven octets is refused |
| `Addresses.OtherObjectIsRejected` | firmware/bacnet_bridge/components/bacnet_client/bacnet/bacaddr.c:872-883 | a binding of an object other than a device is refused |
| `Addresses.RoutedBroadcastChanges` | firmware/bacnet_bridge/components/bacnet_client/bacnet/bacaddr.c:533-559 | a broadcast with a recorded router MAC comes back as an address of that MAC |
| `Addresses.BindingRoundTrip` | firmware/bacnet_bridge/components/bacnet_client/bacnet/bacaddr.c:784-917 | the same for bindings, with the device instance restored iff it fits 22 bits |
| `Addresses.RoutedBindingDiffers` | firmware/bacnet_bridge/components/bacnet_client/bacnet/bacaddr.c:903-917 | a binding behind a known router differs from its own decoded encoding |
| `Addresses.WriteAddress` | firmware/bacnet_bridge/components/bacnet_client/bacnet/bacaddr.c:533-559 | with or without a buffer the same length; with one exactly the encoding is written |
| `Addresses.WriteBinding` | firmware/bacnet_bridge/components/bacnet_client/bacnet/bacaddr.c:784-847 | writes the whole encoding if it fits the size and otherwise nothing |
| `Printing.PrintedInPieces` | firmware/bacnet_bridge/components/bacnet_client/bacnet/bacapp.c:1944-1983 | printing two texts with a shift between them is printing their concatenation, for every size |
| `Printing.PrintedElement` | firmware/bacnet_bridge/components/bacnet_client/bacnet/bacapp.c:1944-1957 | one print, character by character: the text's first size - 1, a NUL, and nothing else |
| `Printing.ChainingRefinesOnePrint` | firmware/bacnet_bridge/components/bacnet_client/bacnet/bacapp.c:1944-1983 | so for any number of pieces |
| `Printing.Cursor.Snprintf` | firmware/bacnet_bridge/components/bacnet_client/bacnet/bacapp.c:1944-1957 | at most size - 1 characters and a NUL are written, nothing else, and the full length is returned |
| `Printing.Cursor.Shift` | firmware/bacnet_bridge/components/bacnet_client/bacnet/bacapp.c:1967-1983 | the pointer moves unless there is no buffer; the size shrinks, not below zero |
| `Printing.Cursor.Piece` | firmware/bacnet_bridge/components/bacnet_client/bacnet/bacapp.c:1967-1983 | after every piece the buffer holds what one print of the whole text so far would have left |
| `Printing.PrintOctetString` | firmware/bacnet_bridge/components/bacnet_client/bacnet/bacapp.c:2102-2126 | returns the length of the whole text and leaves its first min(length, size - 1) characters and a NUL, for every buffer including none |
| `Printing.PrintBitString` | firmware/bacnet_bridge/components/bacnet_client/bacnet/bacapp.c:2211-2236 | the same for bit strings |
| `Printing.PrintCharacterString` | firmware/bacnet_bridge/components/bacnet_client/bacnet/bacapp.c:2135-2201 | the same for character strings printed octet by octet |
| `Printing.PrintUtf8String` | firmware/bacnet_bridge/components/bacnet_client/bacnet/bacapp.c:2154-2185 | the same for UTF-8 with wide characters, whatever the library makes of the octets |
| `Printing.OctetStringReads` | firmware/bacnet_bridge/components/bacnet_client/bacnet/bacapp.c:2102-2126 | the text of octets: X, and two hexadecimal digits each in quotes, that read back as the octets |
| `Printing.BitStringReads` | firmware/bacnet_bridge/components/bacnet_client/bacnet/bacapp.c:2211-2236 | the text of bits: true and false in braces, separated by commas |
| `Printing.CharacterStringReads` | firmware/bacnet_bridge/components/bacnet_client/bacnet/bacapp.c:2186-2201 | the text of characters: the printable octets and dots for the others, in double quotes |
| `Station.BackoffIsBounded` | firmware/bacnet_bridge/main/main.c:1139-1149 | every delay is at least 1 s and below 15.5 s |
| `Station.BackoffExactly` | firmware/bacnet_bridge/main/main.c:1139-1149 | the delays are 1, 2, 4, 8 and then 15 s, each with less than half a second more |
| `Station.GivesUpExactly` | firmware/bacnet_bridge/main/main.c:1327-1333 | a disconnect is given up iff five retries are used up while the boot event group exists |
| `Station.DisconnectRearms` | firmware/bacnet_bridge/main/main.c:1317-1341 | an uninterrupted disconnect ends with the timer armed afresh, the next delay from now |
| `Station.FiringRearms` | firmware/bacnet_bridge/main/main.c:1161-1187 | an uninterrupted firing without stall ends with the timer armed and the callback done; with an IP it does nothing |
| `Station.StepKeepsInv` | firmware/bacnet_bridge/main/main.c:1161-1366 | every step of event handler and timer callback keeps the invariant behind the next rows |
| `Station.SelfHealing` | firmware/bacnet_bridge/main/main.c:1298-1341 | once an IP has been held, a station without one has the timer armed less than 15.5 s ahead or a task on its way to arm it |
| `Station.ArmingEnds` | firmware/bacnet_bridge/main/main.c:1161-1341 | such a task always has a next statement, and at most eight of them go by before the timer is armed, an IP is held or the station reboots, whatever arrives meanwhile |
| `Station.LossStampIsExact` | firmware/bacnet_bridge/main/main.c:1317-1354 | outside the moment between the handler's flag and stamp, the loss stamp is nonzero iff an IP was held and is lost; it never lies before the loss |
| `Station.StampEqualsLossTime` | firmware/bacnet_bridge/main/main.c:1317-1320 | if no time passes between flag and stamp, the stamp is the time of loss |
| `Station.RebootExactly` | firmware/bacnet_bridge/main/main.c:1176-1182 | a reboot never hits a station that never had an IP; it follows more than 600 s without one iff there is still none at the second read and the disconnect handler is past its stamp or was held up as long |
| `Station.RebootOnlyAfterStall` | firmware/bacnet_bridge/main/main.c:1162-1182 | without an IP arriving between the IP check and the judgement every reboot follows more than 600 s without IP |
| `Station.JudgesExactly` | firmware/bacnet_bridge/main/main.c:1176-1182 | the callback reboots iff 600.001 s have passed since the stamp |
| `Station.StalledStationReboots` | firmware/bacnet_bridge/main/main.c:1161-1182 | in every reachable state without an IP for 600.001 s the next firing of the timer ends in a reboot, unless an IP arrives first |
| `Station.SpuriousReboot` | firmware/bacnet_bridge/main/main.c:1176-1182 | a run with such an arrival in which a station with an IP, lost for one second, reboots |
| `Boost.SelfDeadline` | firmware/bacnet_bridge/main/main.c:2542-2568 | over every run a self-initiated boost's deadline is its last arming time plus the current timeout |
| `Boost.RemainingIsCeiling` | firmware/bacnet_bridge/main/main.c:327-337 | the remaining minutes are the exact ceiling, at most the minutes armed with, and for a self-initiated boost at most the current timeout |
| `Boost.RemainingExceedsTimeoutExactly` | firmware/bacnet_bridge/main/main.c:327-337 | over every run, more minutes remain than the timeout iff an external boost is armed and less time has passed since than the minutes the timeout has been lowered by |
| `Boost.ExternalRemainingExceedsTimeout` | firmware/bacnet_bridge/main/main.c:2559-2565 | a run in which an external boost has more minutes left than the timeout |
| `Boost.NoEarlyRevert` | firmware/bacnet_bridge/main/main.c:6429-6449 | an automatic revert is sent only after the full time the deadline was armed with |
| `Boost.RevertIsNotLate` | firmware/bacnet_bridge/main/main.c:6429-6449 | with nothing but polls that see the boost, a revert is sent by the first poll that comes the minutes it was armed with after the arming |
| `Boost.PollArms` | firmware/bacnet_bridge/main/main.c:6436-6446 | a poll that sees a boost it may revert leaves a deadline behind unless it reverts |
| `Boost.AutoClears` | firmware/bacnet_bridge/main/main.c:5994-5997 | observing AUTO clears deadline and ownership and keeps the timeout |
| `Boost.CommandExactly` | firmware/bacnet_bridge/main/main.c:5983-6005 | a command whose mode, read back or commanded, is not AUTO takes ownership and arms with the current timeout if there is one; otherwise deadline and ownership are cleared |
| `Boost.PollExactly` | firmware/bacnet_bridge/main/main.c:6429-6449 | what a poll does to the variables in each case, and exactly when it sends a revert |
| `Boost.SetTimeoutExactly` | firmware/bacnet_bridge/main/main.c:2542-2568 | 0 to 240 minutes are stored, and re-arm or clear a running self-initiated boost; others change nothing |
| `Boost.CommandedBoostIsReverted` | firmware/bacnet_bridge/main/main.c:5983-6449 | after any run, a commanded boost that keeps being seen is reverted by the first poll that reads the mode the timeout later |
| `Boost.SeenBoostIsReverted` | firmware/bacnet_bridge/main/main.c:6429-6449 | the same for an external boost, from the first poll that sees it |
| `Boost.Controller.SetMode` | firmware/bacnet_bridge/main/main.c:5983-6005 | a command changes the variables as specified from the mode read back |
| `Boost.Controller.ChangeTimeout` | firmware/bacnet_bridge/main/main.c:2542-2568 | accepts 0 to 240 minutes, and re-arms or clears only a running self-initiated boost |
| `Boost.Controller.PollMode` | firmware/bacnet_bridge/main/main.c:6429-6449 | a poll arms, reverts or clears as specified, and reverts exactly when it is due |
| `JsonText.FittingIsLongest` | firmware/bacnet_bridge/main/main.c:707-717 | the printed part is the longest prefix of the text without control characters in which each character found room for an escape and the NUL |
| `JsonText.WholeTextIsKept` | firmware/bacnet_bridge/main/main.c:707-717 | a text is printed whole iff all but its last character leave room for an escape and the NUL |
| `JsonText.LastCharacterIsLost` | firmware/bacnet_bridge/main/main.c:707-707 | a text of one character is printed as nothing into two octets |
| `JsonText.RoomyBufferKeepsAll` | firmware/bacnet_bridge/main/main.c:699-718 | a buffer of more than twice its length keeps any text without control characters |
| `JsonText.Escape` | firmware/bacnet_bridge/main/main.c:699-718 | writes the specified text and a NUL within the buffer and nothing behind them |
| `JsonText.CopyString` | firmware/bacnet_bridge/main/main.c:2274-2283 | the copy loop writes the scanned text and a NUL and nothing behind them |
| `JsonText.GetString` | firmware/bacnet_bridge/main/main.c:2264-2286 | succeeds and writes iff the specification finds a string behind the key |
| `JsonText.ScanUndoesEscape` | firmware/bacnet_bridge/main/main.c:2274-2283 | for all texts and both buffer sizes, scanning the printed text recovers what was kept and stops at the printer's closing quote |
| `JsonText.EscapedExactly` | firmware/bacnet_bridge/main/main.c:707-717 | what each character is printed as: quotes and backslashes behind a backslash, control characters not at all |
| `JsonText.StrstrIsFirst` | firmware/bacnet_bridge/main/main.c:2269-2270 | the search stops no later than any occurrence |
| `JsonText.ValueBehindBlanks` | firmware/bacnet_bridge/main/main.c:2271-2285 | blanks, line ends and colons between name and value are passed over, and a value is read only behind a double quote |
| `JsonText.PassValue` | firmware/bacnet_bridge/main/main.c:2269-2270 | the search passes over a printed value unless the part behind its last double quote is the key |
| `JsonText.LookUp` | firmware/bacnet_bridge/main/main.c:5141-5159 | what the reader answers for any name in any flat printed object |
| `JsonText.OwnValueExactly` | firmware/bacnet_bridge/main/main.c:5141-5159 | a field's own value comes back iff no earlier value hides its name, and otherwise nothing does |
| `JsonText.EachFieldComesBack` | firmware/bacnet_bridge/main/main.c:5141-5159 | with values that hold no double quote and equal no key name every field comes back |
| `JsonText.AbsentKeyIsNotFound` | firmware/bacnet_bridge/main/main.c:2264-2286 | in a printed object the reader never finds a name that no field has, whatever the values contain |
| `JsonText.ValueHidesField` | firmware/bacnet_bridge/main/main.c:2269-2271 | for any two fields, a value of the first that makes the second unreadable |
| `LogRing.Ring.Push` | firmware/bacnet_bridge/main/main.c:276-282 | one character is appended to the history the ring holds the end of |
| `LogRing.Ring.WriteLine` | firmware/bacnet_bridge/main/main.c:266-287 | a line of any length appends what the copy loop reads: the line, or its first 255 characters and what lies behind |
| `LogRing.LineIsKeptExactly` | firmware/bacnet_bridge/main/main.c:268-283 | a line is logged as formatted iff it is shorter than 256 characters |
| `LogRing.Ring.CopyChunk` | firmware/bacnet_bridge/main/main.c:5431-5435 | a chunk is the corresponding piece of the last min(total, 8192) characters |
| `LogRing.Ring.Dump` | firmware/bacnet_bridge/main/main.c:5417-5443 | whatever the chunk size, what is sent is a prefix of the last min(total, 8192) characters in order, and all of them iff no send failed |
| `LogRing.DumpCell` | firmware/bacnet_bridge/main/main.c:5423-5434 | the dump's index arithmetic meets the cells the writer used |
| `LogRing.TailExactly` | firmware/bacnet_bridge/main/main.c:260-264 | the last 8192 characters, or all if there are fewer |

## Left out

- FreeRTOS, lwIP, the Wi-Fi driver, NVS, esp_ota and the MQTT client: each call is an abstract step or a result chosen by the environment.
- Ota.SwitchOnlyWholeImage: starts behind the authentication check and the allocations, which end before the two tasks exist.
- Coherence.ReadsAreCoherent: helper calls do not overlap, so a write between a read's answer and its cache put is not covered, nor are writes whose acknowledgement is lost and changes of the target; the device answers the property it was asked for.
- Worker.EachRequestInExactlyOnePlace: completion is stated per request, so submitters that stop waiting before their request is served are not modelled.
- Transactions.Engine.HandlePdu: segmentation, the network layer and the decoding of the acknowledgement's header are below the model, which starts from the dispatched PDU; an object identifier whose length is not 4, which keeps what the shared value held of one, reads as zero.
- Discovery.Table.OnIAm: starts from a reply that decodes; others leave the table alone.
- AppData.AppDataRoundTrip: covers neither DOUBLE, which this build does not enable, nor the constructed datatypes with their own coders; REAL is four opaque octets, so floating-point rounding does not occur.
- PropertyValues.ReadPropertyValue: does not model the pass without a result structure, which only measures, nor fields that a failing decoder has already filled.
- Addresses.BindingRoundTrip: the text forms are not modelled; printing and parsing of bindings use different notations and are not inverses.
- Printing.Cursor.Piece: printers of other datatypes are built from the same pieces and would add nothing.
- Station.StepKeepsInv: boot-time provisioning and the access-point fallback are not modelled, nor is tearing of a 64-bit stamp; the two flags and two counters that a new IP sets are one step, as only one of the flags is read against it.
- Boost.Controller.ChangeTimeout: each handler call and each poll is one step, so a poll or a status request between the storing of a new timeout and the re-arming, with a flash write in between, is not modelled; nor is the import of a timeout from a configuration file, which is stored unchecked and without re-arming.
- JsonText.OwnValueExactly: flat objects and names that fit the 64-octet search array; nested objects and the helper that cuts them out are not modelled.
- LogRing.Ring.Dump: no writes during a dump.
- `dns_server.c`, `abort.c`, `hvac_core.c`, the Matter adapter and Ethernet bring-up: small or wrappers around SDK calls.
