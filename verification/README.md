# Verified model of the AoC IPC and battery drivers

A Dafny model of the parts of the Google kernel drivers where correctness rests on wrapping counters,
interleavings or arithmetic, with proofs of what those parts promise.

* **AoC shared-memory IPC** (`google-modules/aoc_ipc`). `Words` has the 32-bit arithmetic. `Ring` is the byte
  ring as a class with the driver's fields and an array, refining an unbounded byte stream (`RingStream`);
  `RingRuns` drives a ring through any sequence of calls and proves what the reads return. `RingRace` takes ring reads and writes apart into single
  byte copies and interleaves them; `RingGuard` is about writes that keep to the room the ring reports. `Queue` is the message queue under every interleaving of one writer and one
  reader, a step being one load, one byte or one index store; `QueueWrap` takes it across the counter wrap.
* **Protocols on top** (`google-modules/aoc`). `Drain` is the count-in, recheck, use, count-out protocol by which
  the AoC is taken offline under running service calls, `DrainCycles` whole cycles of it. `Channel` is the pending queue of one channel with its
  BLOCK/UNBLOCK flow control, `ChannelRuns` what it accepts and that it can be read.
* **Fast forms against simple ones.** `InterfaceCheck` is the moving-start UUID search. `Storage` is the tag cache
  in front of the storage providers.
* **Battery code** (`google-modules/bms`). `Pps` (contact deadline and detection stages), `Eeprom` (layouts,
  history migration), `Fade`, `VoltageTier`, `TierStats` with
  `TierRuns` (whole tiers), `LogSplit`.

Code whose state the driver updates in place is a class or a loop, proved against specification functions;
protocols are state machines over events, and their theorems speak of every sequence of events.

## What was found

Where a promise is not kept by the code as it stands, the code is modelled as it is, a concrete case is given, and
the exact condition is proved.

* A ring write between the reader's overflow check and its pointer load makes the reader take the unread count
  modulo the ring size: bytes are delivered twice and out of order (`RingRace.RaceDuplicates`). The exact condition
  is `RingRace.RaceExact`. A writer that keeps to `aoc_ring_bytes_available_to_write` rules it out
  (`RingGuard.GuardedReads`), and no weaker limit does (`RingGuard.GuardExact`); `aoc_service_write_message` itself does
  not ask for it.
* A flush of a ring with close to 2^32 unread bytes can overflow the read pointer's sum; the pointer is then wrong
  unless the size divides 2^32 (`Ring.PointerExact`, `Ring.Ring.SyncOffset`), and the next read counts an old byte as
  new (`RingRuns.FlushOverflows`).
* A queue survives the wrap of its counters exactly when its slot count divides 2^32; otherwise a message is read in
  the place of another one (`QueueWrap.SurvivesWrapExactly`, `QueueWrap.WrapOverwrites`).
* A drain that finds nobody active marks no device dead. A client that kept such a device can go to sleep on it
  after the restart, and the next drain never ends (`Drain.StrandedReachable`); apart from that case the drain can
  always end (`Drain.DrainExact`), and a drain that finds somebody active strands nobody
  (`DrainCycles.BusyDrainStrandsNone`).
* With a block threshold of zero a blocked channel is never unblocked (`Channel.EmptiedIsUnblocked`,
  `Channel.ZeroThresholdSticks`).
* A cached storage provider that lacks the callback asked for answers -EACCES where the scan would not
  (`Storage.CacheExact`, `Storage.CachedWithoutCallback`). Registration does not check for tags another provider knows;
  the cache then agrees with the scan exactly while no earlier provider answers for the tag (`Storage.DuplicateExact`).
* In the V1 EEPROM layout the last history entry covers FCRU, FGST and AYMD (`Eeprom.HistoryOverlapExact`,
  `Eeprom.FieldsBehindHistory`). If clearing the new fields fails after the move, the migration runs a second time
  on the moved history. `Eeprom.RetryExact` says which entries survive that; `Eeprom.RetryLoses` is one that does not.
  A history write that is short but reports no error is taken for a whole one (`Eeprom.ShortMoveExact`).
* The ten seconds the PPS driver keeps between contacts leave no margin for the time its calls take: three times the
  latency comes on top, and that bound is reached (`Pps.ContactsWithinLimit`, `Pps.LimitReached`).
* The log splitter loses text exactly when there is a NUL in it (`LogSplit.PrintExact`).
* A tier average is logged as 0 before any time is booked (`TierStats.AverageWithin`). Per-state counts are 16 bits
  wide, per-state times 32, and add up only while none has wrapped (`TierStats.Tier.CountsAddUp`); samples taken with a
  state outside the table are in neither.
* The tier merge lets the last temperature index through its guard, and with it a row past those of the profile
  (`VoltageTier.RowInTable`). No caller passes that index: all take it from `gbms_msc_temp_idx`, which stays in the
  table as long as there are two temperature limits (`VoltageTier.RangeInTable`).

Comments that the code contradicts, the model following the code: `pps_update_adapter` never returns
`PPS_UPDATE_DELAY_MS` (google-modules/bms/google_dc_pps.c:759-765) and counts a keep-alive twice; the storage API
answers -EPROBE_DEFER, not -EAGAIN, while references are unresolved (google-modules/bms/gbms_storage.h:154-157);
`gbms_cache_lookup` never sets the cached address, so `fetch` and `store` are not reached.

## Assumptions

* A ring has 0 < size < 2^31, and a write starts only while fewer than 2^32 bytes stay unread; `Words.DeltaExact`
  shows the counters cannot tell more. The stores of `tx` and `wp` on a ring are one step. Memory is sequentially consistent.
* `aoc_take_offline` and `aoc_did_become_online` hold `aoc_service_lock`, as in the watchdog path. Any other write of
  the firmware state may come at any time, as long as it is not a write of ONLINE.
* `is_channel_blocked` is false when a channel is opened.
* Storage tags are static, and no provider goes offline. `Owned`, under which the cache is compared with the scan, says
  that each tag is known to one provider.
* PPS: a zero return, which follows a contact, is followed by another call within 9 seconds. The unstamped ping of
  google-modules/bms/google_charger.c:2965 is not among the contacts; it could only bring them closer.
* EEPROM: a device write stores a leading part of its bytes, as many as it returns unless that is an error; a
  one-byte write that reports an error stores nothing.

## Model

| member | source | states |
|---|---|---|
| `Words.DeltaExact` | google-modules/aoc_ipc/aoc_ipc_core.c:87-100 | the counter difference, wrap branch included, is the true distance exactly while that is below 2^32 |
| `Ring.PointerExact` | google-modules/aoc_ipc/aoc_ipc_core.c:67-79 | the advanced read pointer is the true position exactly when its u32 sum does not overflow or the size divides 2^32 |
| `Ring.PublishExact` | google-modules/aoc_ipc/aoc_ipc_core.c:53-65 | advancing by at most one ring, `tx` and `wp` stay the byte count modulo 2^32 and modulo the size |
| `Ring.AvailableExact` | google-modules/aoc_ipc/aoc_ipc_core.c:151-165 | the count read off the pointers is the unread count exactly up to one ring, and its residue beyond |
| `Ring.ReadOut` | google-modules/aoc_ipc/aoc_ipc_core.c:172-179 | the cells from a position still held, taken round the end, are the stream from that position |
| `Ring.WriteIn` | google-modules/aoc_ipc/aoc_ipc_core.c:185-210 | filling the cells after the write pointer appends to the stream the ring holds and loses only the oldest bytes |
| `Ring.Ring.AdvanceTx` | google-modules/aoc_ipc/aoc_ipc_core.c:53-65 | publishes bytes already in the array; the counters follow the stream |
| `Ring.Ring.AdvanceRx` | google-modules/aoc_ipc/aoc_ipc_core.c:67-79 | releases bytes; the ring invariant survives exactly under the condition of `PointerExact` |
| `Ring.Ring.BytesAvailableToRead` | google-modules/aoc_ipc/aoc_ipc_core.c:332-347 | the smaller of unread count and size |
| `Ring.Ring.DidOverflow` | google-modules/aoc_ipc/aoc_ipc_core.c:274-285 | true exactly when an unread byte has been overwritten |
| `Ring.Ring.SyncOffset` | google-modules/aoc_ipc/aoc_ipc_core.c:115-129 | leaves the newest min(asked, size, unread) bytes; exact condition, in terms of the state before, for the pointer to be right, always met in the catch-up skip |
| `Ring.Ring.CatchUp` | google-modules/aoc_ipc/aoc_ipc_core.c:145-165 | skips exactly what was overwritten; the count from the pointers is then the unread count |
| `Ring.Ring.CopyOut` | google-modules/aoc_ipc/aoc_ipc_core.c:172-179 | one or two copies give the bytes from the read pointer on, round the end |
| `Ring.Ring.ReadBuffer` | google-modules/aoc_ipc/aoc_ipc_core.c:132-183 | the destination gets min(its length, unread, size) bytes of the stream from max(R, T - size), and nothing beyond them changes |
| `Ring.Ring.ReadMessage` | google-modules/aoc_ipc/aoc_ipc_core.c:613-634 | succeeds exactly when something is unread; returns and releases min(buffer, unread, size) bytes of the stream |
| `Ring.Ring.WriteBuffer` | google-modules/aoc_ipc/aoc_ipc_core.c:185-210 | one or two copies fill the cells after the write pointer and no others |
| `Ring.Ring.WriteMessage` | google-modules/aoc_ipc/aoc_ipc_core.c:654-679 | succeeds exactly when the data fits the ring; appends it to the stream and keeps the ring invariant |
| `Ring.Ring.AdvanceWriteIndex` | google-modules/aoc_ipc/aoc_ipc_core.c:507-529 | up to one ring, publishes what the cells hold |
| `Ring.Ring.AdvanceReadIndex` | google-modules/aoc_ipc/aoc_ipc_core.c:532-556 | never moves past what is unread; true exactly when it moved the whole amount |
| `Ring.Ring.ResetWritePointer` | google-modules/aoc_ipc/aoc_ipc_core.c:578-600 | the write pointer is 0, what the cells up to the end hold is published, the invariant holds |
| `RingRuns.ReadsFollowStream` | google-modules/aoc_ipc/aoc_ipc_core.c:115-210 | for every run of the stream that `Drive` proves the ring to follow, reads return pieces of it in order, none twice |
| `RingRuns.OnlyOverwrittenLost` | google-modules/aoc_ipc/aoc_ipc_core.c:131-183 | for every run of writes and reads of that stream, a byte the reader passed was delivered exactly if it was not overwritten before |
| `RingRuns.LosslessWithinRing` | google-modules/aoc_ipc/aoc_ipc_core.c:131-183 | for every run of that stream in which nothing is overwritten, the bytes read are the bytes written |
| `RingRuns.LastReadDrains` | google-modules/aoc_ipc/aoc_ipc_core.c:145-183 | in every run a read into a buffer of the ring's size leaves nothing unread |
| `RingRuns.LastReadAccounts` | google-modules/aoc_ipc/aoc_ipc_core.c:145-183 | in a run of writes and reads that ends so, every byte written is delivered exactly if it was not overwritten first |
| `RingRuns.Drive` | google-modules/aoc_ipc/aoc_ipc_core.c:115-210 | a ring driven through any sequence of writes, reads, flushes, advances and resets, each within the 2^32 limits where it comes, stays valid and follows the stream: reads return pieces in order, none twice, among writes and reads exactly the overwritten bytes are lost, and a last read of the ring's size leaves nothing unread |
| `RingRuns.ShortRunsAllowed` | google-modules/aoc_ipc/aoc_ipc_core.c:67-79 | the limits are met by every sequence that cannot bring the unread count to within a ring of 2^32 |
| `RingRuns.FlushOverflows` | google-modules/aoc_ipc/aoc_ipc_core.c:67-79 | a ring on which a flush overflows: one byte is unread, the pointers count two, the first an old one |
| `RingRace.RaceExact` | google-modules/aoc_ipc/aoc_ipc_core.c:132-183 | under every interleaving, a byte read is the right one exactly if the writer had not lapped its cell at the copy, and the count is right exactly if no more than a ring was unread at the pointer load or the caller wanted no more than the residue of it |
| `RingRace.UnlappedReadWhole` | google-modules/aoc_ipc/aoc_ipc_core.c:132-183 | a read that ends before the writer is a ring past its start is whole |
| `RingRace.UnlappedReadsInOrder` | google-modules/aoc_ipc/aoc_ipc_core.c:132-183 | reads that were not lapped return increasing stream positions, none twice, however writes interleave |
| `RingRace.RaceDuplicates` | google-modules/aoc_ipc/aoc_ipc_core.c:145-165 | a run in which a racing write makes two reads return the same byte |
| `RingGuard.GuardedReads` | google-modules/aoc_ipc/aoc_ipc_core.c:350-364 | if every write keeps to the room reported when it starts, then under every interleaving each read is whole, takes all that is unread and fits, and the reads joined are the stream up to the reader: nothing lost, repeated or reordered |
| `RingGuard.RoomGrows` | google-modules/aoc_ipc/aoc_ipc_core.c:350-364 | the room a writer has seen stays: the reader only adds to it |
| `RingGuard.GuardExact` | google-modules/aoc_ipc/aoc_ipc_core.c:350-364 | of a write started between calls, every continuation without another write is lossless exactly if the write kept to the room |
| `Queue.HeaderRead` | google-modules/aoc_ipc/aoc_ipc_core.c:102-113 | a stored message reads back with its length, up to the u16 field, and its payload |
| `Queue.EncodeExact` | google-modules/aoc_ipc/aoc_ipc_core.c:185-197 | the length in two bytes, low one first, six zero bytes, the payload |
| `Queue.QueueSafe` | google-modules/aoc_ipc/aoc_ipc_core.c:400-468 | in every run messages read are a prefix of those written, accepted means published, unread stays within the slots, and no slot is read while being filled |
| `Queue.DeliveredWhole` | google-modules/aoc_ipc/aoc_ipc_core.c:102-113 | every message shorter than 2^16 bytes that is delivered is delivered whole |
| `Queue.RechecksPass` | google-modules/aoc_ipc/aoc_ipc_core.c:507-556 | the second availability checks, whose results are dropped, never fail |
| `Queue.RefusedExactly` | google-modules/aoc_ipc/aoc_ipc_core.c:613-689 | when a read or write gives up: exactly on a full queue, an oversized message, an empty queue, a short buffer |
| `Queue.CallsEnd` | google-modules/aoc_ipc/aoc_ipc_core.c:613-689 | every call ends after a bounded number of its own steps, whatever the other side does |
| `Queue.PointersFollow` | google-modules/aoc_ipc/aoc_ipc_core.c:53-79 | the ring pointers of a queue count the messages written and read, modulo the slot size |
| `Queue.ClipExact` | google-modules/aoc_ipc/aoc_ipc_core.c:104-106 | the u16 length keeps a message whole exactly when it is shorter than 2^16 |
| `Queue.SlotsMustDivide` | google-modules/aoc_ipc/aoc_ipc_core.c:463-464 | messages in flight get different slots across the counter wrap exactly when the slot count divides 2^32 |
| `QueueWrap.WrapOverwrites` | google-modules/aoc_ipc/aoc_ipc_core.c:440-464 | for every slot count that does not divide 2^32, a run from the initial state in which a message is read in the place of an unread one |
| `QueueWrap.SurvivesWrapExactly` | google-modules/aoc_ipc/aoc_ipc_core.c:400-468 | every run from every initial state delivers in order exactly when the slot count divides 2^32 |
| `Queue.SlotOffsets` | google-modules/aoc_ipc/aoc_ipc_core.c:440-444 | the u32 slot offsets do not overflow, overlap or leave the region |
| `Drain.ServicesSafe` | google-modules/aoc/aoc.c:1582-1605 | in every run the count is the number of threads inside, users find the services allocated, and none uses them from the sight of zero until they are rebuilt |
| `Drain.ThreadLeaves` | google-modules/aoc/aoc_service_core.c:440-512 | during a drain an awake thread gets out by its own steps, whatever check it is at |
| `Drain.DrainExact` | google-modules/aoc/aoc.c:1591-1594 | a drain can end without outside help exactly when no thread sleeps on an unregistered device |
| `Drain.StrandedReachable` | google-modules/aoc/aoc.c:1168-1183 | such a sleeper is reachable through a device that an earlier, idle drain removed without marking it dead |
| `DrainCycles.BusyDrainStrandsNone` | google-modules/aoc/aoc.c:1168-1183 | once a drain has found somebody active, nobody ever sleeps again on a device registered then, in any continuation: only idle drains strand |
| `DrainCycles.DeadExactly` | google-modules/aoc/aoc.c:1168-1183 | in every run nobody sleeps on a dead device, and no device on the bus is dead outside a drain |
| `DrainCycles.CallInAndOut` | google-modules/aoc/aoc_service_core.c:440-512 | a call gets in exactly while the firmware is online, and leaves no trace |
| `DrainCycles.SleeperServed` | google-modules/aoc/aoc_service_core.c:469-487 | a sleeper on a live device goes on with its call while the firmware is online |
| `DrainCycles.SignalsEndDrain` | google-modules/aoc/aoc.c:1591-1594 | with signals to its sleepers every drain can end |
| `DrainCycles.TakesDown` | google-modules/aoc/aoc.c:1582-1605 | from a running or crashed firmware the drain can go through to freed services and an empty bus, unless somebody is stranded |
| `DrainCycles.Recovers` | google-modules/aoc/aoc.c:1582-1605 | from every reachable state in which nobody is stranded in a drain the AoC can come online with live devices |
| `Channel.QueueConserved` | google-modules/aoc/aoc_channel_dev.c:208-249 | in every run popped, pending and scrapped messages are the accepted ones in order; the count is list length plus reads between pop and decrement, never above max + 1 |
| `ChannelRuns.AcceptedExactly` | google-modules/aoc/aoc_channel_dev.c:220-230 | a message that meets a free lock is accepted exactly if the count is not above the maximum |
| `ChannelRuns.BoundAttained` | google-modules/aoc/aoc_channel_dev.c:220-231 | the count max + 1 is reached |
| `ChannelRuns.AllReadable` | google-modules/aoc/aoc_channel_dev.c:555-620 | from every state between messages reads alone bring out all that was accepted, in order, and the channel can close with nothing discarded |
| `Channel.FlowControl` | google-modules/aoc/aoc_channel_dev.c:230-242 | in every run the flag is the last command taken and commands alternate; outside the lock, none refused, above the threshold means blocked and below means not |
| `ChannelRuns.CommandsExactly` | google-modules/aoc/aoc_channel_dev.c:232-240 | BLOCK is sent only on a count above the threshold, UNBLOCK only on one below; at the threshold the flag stays |
| `Channel.EmptiedIsUnblocked` | google-modules/aoc/aoc_channel_dev.c:606-615 | with a threshold of at least one an emptied channel is unblocked; with zero UNBLOCK is never sent |
| `Channel.ZeroThresholdSticks` | google-modules/aoc/aoc_channel_dev.c:230-242 | with a threshold of zero, a run that leaves the channel empty and blocked |
| `InterfaceCheck.MatchBytes` | google-modules/aoc/aoc-interface-zuma.h:3182-3187 | the byte loop reaches 16 exactly when the entry is the UUID |
| `InterfaceCheck.PresentExact` | google-modules/aoc/aoc-interface-zuma.h:3160-3170 | the entries counted are the whole sixteen-byte entries within the size given |
| `InterfaceCheck.AocInterfaceCheck` | google-modules/aoc/aoc-interface-zuma.h:3160-3200 | returns 0 exactly when every expected UUID stands in the first `size` bytes at a multiple of sixteen, for every table, order and size, negative ones included |
| `Storage.ScanFindsOwner` | google-modules/bms/gbms_storage.c:315-326 | the index-order scan finds the owner's answer |
| `Storage.CacheExact` | google-modules/bms/gbms_storage.c:269-295 | the cached provider's answer is the scan's exactly when it has the callback asked for |
| `Storage.DuplicateExact` | google-modules/bms/gbms_storage.c:164-170 | the cached provider's answers are the scan's, whatever the callbacks say, exactly if no earlier provider with the callback knows the tag |
| `Storage.AnswerExact` | google-modules/bms/gbms_storage.c:313-334 | the answer of the first slot that answers; if none does, -EPROBE_DEFER exactly while a slot is a reference, else -ENOENT |
| `Storage.FirstMatch` | google-modules/bms/gbms_storage.c:187-196 | the first slot whose name is a prefix of the new one |
| `Storage.SlotExact` | google-modules/bms/gbms_storage.c:182-202 | a name goes over the first reference it begins with, is busy if a provider matches first, and goes behind the last slot while there is room |
| `Storage.Storage.FindSlot` | google-modules/bms/gbms_storage.c:182-202 | that slot if it is a reference, busy if it is taken, else the next free one |
| `Storage.Storage.RegisterInternal` | google-modules/bms/gbms_storage.c:204-253 | only the slot found changes; a descriptor once set never does |
| `Storage.Storage.CacheLookup` | google-modules/bms/gbms_storage.c:105-122 | the newest entry of the tag, exactly when the tag is cached |
| `Storage.Storage.CacheAdd` | google-modules/bms/gbms_storage.c:125-162 | entries name providers that know their tag, and with one owner to a tag there is at most one entry |
| `Storage.Storage.CacheAccess` | google-modules/bms/gbms_storage.c:373-398 | the cached provider's answer; with one owner to a tag that is the scan's, or -EACCES exactly if the owner lacks the callback, where the scan finds nobody |
| `Storage.Storage.Transfer` | google-modules/bms/gbms_storage.c:298-334 | the cached provider's answer or else the scan's, a miss being deferred exactly while a reference is unresolved; with one owner to a tag always the scan's, but for -EACCES if the cached owner lacks the callback |
| `Storage.CachedWithoutCallback` | google-modules/bms/gbms_storage.c:269-295 | a provider without a read callback, cached by a write: the read answers -EACCES, the scan -ENOENT |
| `Storage.ReferenceResolved` | google-modules/bms/gbms_storage.c:204-253 | a reference defers a read, the provider registered under its name answers it |
| `Pps.DueWithinLimit` | google-modules/bms/google_dc_pps.c:843-865 | when a returned delay runs out, less than ten seconds plus twice the call latency have passed since the last contact, and never less than three seconds since the call |
| `Pps.ContactsWithinLimit` | google-modules/bms/google_dc_pps.c:766-871 | in every run that honours the delays, successive contacts, those of the detection included, are less than ten seconds apart, plus three times the latency of a call |
| `Pps.LimitReached` | google-modules/bms/google_dc_pps.c:843-865 | for every latency a run in which two contacts are that far apart but for a nanosecond |
| `Pps.Adapter.ProgCheckOnline` | google-modules/bms/google_dc_pps.c:218-271 | ACTIVE exactly if it was, or after good reads, then a good ping, then source capabilities; the ping is a stamped contact |
| `Pps.Adapter.Work` | google-modules/bms/google_dc_pps.c:563-688 | its whole outcome and whether it made a stamped contact; becomes ACTIVE only from AVAILABLE with a good read and a later good ping; NOTSUPP exactly without supply or cable, on -EOPNOTSUPP, or if it was |
| `Pps.Adapter.Establish` | google-modules/bms/google_dc_pps.c:563-688 | from any stage but NOTSUPP, good answers to the switch, the ping and the report end ACTIVE |
| `Pps.Adapter.DetectionAnswers` | google-modules/bms/google_dc_pps.c:594-688 | what each good or failing answer leads to, and the delay returned |
| `Pps.Adapter.KeepAlive` | google-modules/bms/google_dc_pps.c:691-708 | contact and its stamp on success, back to FIXED and count zero on failure |
| `Pps.Adapter.UpdateAdapter` | google-modules/bms/google_dc_pps.c:766-871 | contacts, stamps and delays are those of the plan, errors come back unchanged, and the request made is the pending one |
| `Pps.Adapter.ChangeBoth` | google-modules/bms/google_dc_pps.c:798-840 | two pending changes take two calls, the second due at once, and both values are set |
| `Pps.Adapter.ServePass` | google-modules/bms/google_cpm.c:1753-1868 | detection and then, once ACTIVE, the update: the stage advances and the pass is one call of the contact runs |
| `Pps.Adapter.Serve` | google-modules/bms/google_cpm.c:1753-1886 | any number of passes on an adapter that answers, each by the time the one before asked for: successive contacts keep the limit, from the detection on |
| `Eeprom.TagsDisjoint` | google-modules/bms/google_eeprom.c:83-175 | a writable tag overlaps no other tag in either layout |
| `Eeprom.HistoryOverlapExact` | google-modules/bms/google_eeprom_01.c:26-45 | history entries meet a writable tag only in V1, at the last entry, on FCRU, FGST and AYMD |
| `Eeprom.MigrationKeepsHistory` | google-modules/bms/google_eeprom.c:409-467 | every used entry is read unchanged in V1, and all bytes below the history are unchanged |
| `Eeprom.UsedExact` | google-modules/bms/google_eeprom.c:420-433 | the used entries are the leading ones whose first byte is not 0xFF |
| `Eeprom.NewFieldsZero` | google-modules/bms/google_eeprom.c:448-464 | the five bytes in front of the moved history are zero |
| `Eeprom.MigrationKeepsTags` | google-modules/bms/google_eeprom.c:409-464 | every tag of the default layout but the history reads as before, FCRU, FGST and AYMD if some entry is unused |
| `Eeprom.FieldsBehindHistory` | google-modules/bms/google_eeprom.c:409-446 | fields behind the history are unchanged unless all 75 entries are used; then what overwrites them |
| `Eeprom.RetryExact` | google-modules/bms/google_eeprom.c:453-507 | after a failed field init, each used entry survives the second migration exactly if that does not reach it or its bytes are also those six places before it |
| `Eeprom.RetryFirst` | google-modules/bms/google_eeprom.c:453-507 | with no field cleared, the first entry survives exactly if its halves are equal |
| `Eeprom.RetryLoses` | google-modules/bms/google_eeprom.c:453-507 | an image whose one entry is lost |
| `Eeprom.MigrateTwice` | google-modules/bms/google_eeprom.c:448-516 | two starts on a device, the first failing to clear the fields: the final image, and exactly those entries kept |
| `Eeprom.ShortMoveExact` | google-modules/bms/google_eeprom.c:439-446 | after a short history write that reports no error, a used entry survives exactly if the bytes of it that were not stored are in place already |
| `Eeprom.MigrateShort` | google-modules/bms/google_eeprom.c:448-516 | a start with such a write marks the new layout all the same and keeps exactly those entries |
| `Eeprom.ReadUsed` | google-modules/bms/google_eeprom.c:420-433 | the leading used entries, or an error exactly if one of the reads made fails |
| `Eeprom.Device.StoreBytes` | google-modules/bms/google_eeprom.c:279-287 | exactly the bytes before a failing one are written |
| `Eeprom.Device.WriteTag` | google-modules/bms/google_eeprom.c:263-290 | writes the tag's place and nothing else, or reports why not |
| `Eeprom.WriteThenRead` | google-modules/bms/google_eeprom.c:195-290 | a tag written whole reads back, every other tag but the history reads as before |
| `Eeprom.Device.WriteEntry` | google-modules/bms/google_eeprom.c:337-379 | the entry reads back as written and nothing else changes, or exactly the bytes before a failing one are written |
| `Eeprom.Device.HistMove` | google-modules/bms/google_eeprom.c:409-446 | what part of the used history is moved: none without memory or after a failed read, else what the one write stores |
| `Eeprom.Device.UpdateToV1` | google-modules/bms/google_eeprom.c:448-516 | the image after every combination of failing and short device accesses, and what is returned |
| `Eeprom.MigrateCleanly` | google-modules/bms/google_eeprom.c:448-516 | without faults the image is the migrated one with the layout marked; BPST reads zero and LOTR one |
| `Fade.Fade10` | google-modules/bms/google_bms.c:348-369 | computes the interpolation, or -EINVAL, for every table it does not divide by zero on |
| `Fade.FadeMonotone` | google-modules/bms/google_bms.c:348-369 | non-decreasing in cycles over all segments and the extrapolation |
| `Fade.FadeBetween` | google-modules/bms/google_bms.c:348-369 | between two reference points and beyond the last the fade is on the line through them, rounded down |
| `Fade.FadeBeforeFirst` | google-modules/bms/google_bms.c:348-369 | before the first point it is on the line from no fade at no cycles |
| `Fade.FadeAtReference` | google-modules/bms/google_bms.c:348-369 | passes through every reference point |
| `VoltageTier.VoltageIdx` | google-modules/bms/google_bms.c:1049-1069 | the first tier not exceeded, one further within the headroom |
| `VoltageTier.TierExact` | google-modules/bms/google_bms.c:1049-1069 | the first tier whose limit is not exceeded, or the next one if the headroom is under three resolution steps |
| `VoltageTier.VoltageIdxMergeTiers` | google-modules/bms/google_bms.c:990-1020 | the end of the run of equal limits |
| `VoltageTier.RowInTable` | google-modules/bms/google_bms.c:1011-1020 | the row read is inside a table exactly if it is one of its rows; the last temperature index, which the guard lets through, is not a row of the profile |
| `VoltageTier.TempIdx` | google-modules/bms/google_bms.c:1027-1041 | the last range whose lower limit is reached, never beyond the last range |
| `VoltageTier.RangeInTable` | google-modules/bms/google_battery.c:5700-5708 | with the index taken from the temperature, the row read is in the profile's table at every temperature and voltage, exactly if there are at least two limits |
| `VoltageTier.RowMajor` | google-modules/bms/google_bms.h:527-534 | the limits are laid out row by row from the first row of the profile |
| `VoltageTier.TierMonotone` | google-modules/bms/google_bms.c:1049-1069 | non-decreasing in battery voltage |
| `VoltageTier.MergeKeepsLimit` | google-modules/bms/google_bms.c:990-1020 | at or above the unmerged tier, same current limit, in range, non-decreasing in battery voltage |
| `VoltageTier.MergeExact` | google-modules/bms/google_bms.c:1011-1020 | merging goes exactly as far as the limits stay the same, and not into the last tier |
| `TierStats.TracksAdd` | google-modules/bms/google_bms.c:1389-1405 | a sample keeps each sum between the extremes times the booked time |
| `TierStats.AverageWithin` | google-modules/bms/google_bms.c:1423-1431 | min <= average <= max once time is booked, and exactly when without |
| `TierStats.Tier.CountsAddUp` | google-modules/bms/google_bms.h:300-303 | the 16-bit per-state counts add up to the samples with a known state exactly while none has been counted 2^16 times, and the 32-bit times to the time booked exactly while none has reached 2^32 |
| `TierStats.Tier.ChgStatsTier` | google-modules/bms/google_bms.c:1325-1334 | books one sample and its time to a known state, nothing to an unknown one |
| `TierStats.Tier.UpdateTier` | google-modules/bms/google_bms.c:1337-1408 | keeps the bounds; per-state counts and times account for all samples and time, but for unknown states and the opening samples |
| `TierRuns.Feed` | google-modules/bms/google_bms.c:1337-1408 | over all samples of a tier: each extreme is attained and covers all readings, each sum weights the readings of its own quantity with their times, the times are those of their charge type, charge and range as at the ends |
| `TierRuns.AverageExact` | google-modules/bms/google_bms.c:1423-1431 | the logged average is the weighted sum over the time, rounded toward zero |
| `LogSplit.SplitWhole` | google-modules/bms/google_bms.c:1479-1502 | for every text the pieces are at most 255 long and, joined, are the text without newlines |
| `LogSplit.LinesExact` | google-modules/bms/google_bms.c:1479-1490 | the lines have no newline and, rejoined with newlines, are the text |
| `LogSplit.SplitByLine` | google-modules/bms/google_bms.c:1479-1502 | what is logged is the pieces of the lines in order, but for a blank first line |
| `LogSplit.PiecesFull` | google-modules/bms/google_bms.c:1491-1496 | a line is cut into pieces of 255 characters and a last one that is empty only if the line is |
| `LogSplit.NoPieceCrosses` | google-modules/bms/google_bms.c:1484-1490 | no piece crosses the end of a line |
| `LogSplit.PrintExact` | google-modules/bms/google_bms.c:1489-1494 | what is printed is the text without newlines exactly when it has no NUL |
| `LogSplit.LogCstrHandler` | google-modules/bms/google_bms.c:1479-1502 | terminates although the index steps back, and emits exactly the lines cut into pieces |

## Left out

- Device tree, sysfs, debugfs, character devices, regulators, mailbox, IOMMU and coredump code: I/O and foreign calls.
- Null-pointer and direction checks of the IPC functions: only one-branch facts.
- `aoc_service_flush_read_data`, and buffer services: the first only on queues and a single index advance, the second never move data here.
- Wake locks, the shared-memory doorbell and `aocc_poll`: not part of the message path.
- Channel index allocation in `aocc_open`: a counter with a limit.
- Calls of `aoc_take_offline` from driver removal and shutdown, which do not take `aoc_service_lock`.
- Signal delivery to the firmware and weaker memory orders than sequential consistency.
- `gbms_storage_read_data` and `gbms_storage_write_data`, flush and provider offline handling: uncached scans, or not decided by the modelled state.
- Pps.Adapter.ServePass: the pending voltage google_cpm.c chooses while waiting for the source, the charger switch there and its retries after errors; its own shorter waits are covered.
- Pps.Adapter.Serve: as `ServePass`.
- The hash buckets of the storage cache: only entries with the same tag matter, and they share a bucket.
- The V2 EEPROM layout and the BRID tag, which is read by a separate path that returns 0.
- TierStats.Tier.UpdateTier: sums, measured values and times other than the per-state ones are unbounded integers, taken to be in the range of their fields.
- Fade.Fade10: the product in the interpolation is taken to fit an int.
- VoltageTier.VoltageIdx: three resolution steps are taken to fit an int.
