# Verification model of the uDataPacketBroker store and broker

A Dafny 4.11 model of the packet broker's core: the RocksDB-backed packet store with its
hand-maintained stream registry, the byte-level key codec, the broker's numbering pipeline and
size monitor, and the publisher sessions with their shared admission count. Every imperative
operation is written as the C++ runs it (batches, loops, iterator scans, drop-oldest queues) and
is proved against a loop-free description; what the system promises is then proved about that
description, for all inputs and all runs.

Check it with `dafny verify dfyconfig.toml`.

## Layout

| file | contents |
|---|---|
| ByteStrings.dfy | bytewise order, big-endian integers, sorted key enumeration (what an iterator visits) |
| KeyCodec.dfy | stream and packet keys: encoding, decoding, order and injectivity |
| StoreModel.dfy | the two column families and, without loops, what each store operation does to them |
| RocksDatabase.dfy | the store as it runs: write batches, aggregation, range deletes, scans |
| StoreIndex.dfy | when the registry agrees with the packets; every run keeps it so |
| Truncation.dfy | what truncation is for, and exactly when the 64-bit code does it |
| Density.dfy | unique and dense numbers: when the reported count is a count of packets, when truncations compose |
| Snapshots.dfy | what a batch planned from an earlier registry does to a later store |
| TruncationRace.dfy | a write landing between truncation's registry scan and its commit, and the other way round |
| Interleaving.dfy | whole runs of the writer and truncation threads, read and commit as separate steps |
| Aftermath.dfy | what a restart does to the packet such a race leaves behind |
| QueryMeaning.dfy | what query and the stream listing tell a subscriber |
| RegistryMeaning.dfy | registry entries hold numbers and times that were written, and the listing shows those times |
| Truncator.dfy | the size monitor's loop: when it ends, when its total tells the truth, and its adaptive pause |
| Pipeline.dfy | the broker's queues and propagator, one step per critical section |
| PipelineHistory.dfy | every run of the pipeline with the fate of every packet |
| EndToEnd.dfy | broker and store together, over any interleaving and any restarts |
| Delivery.dfy | numbering resumes after the newest stored packet; a drained packet is not lost |
| Provenance.dfy | whatever is stored or queued came from an accepted packet |
| PublishSession.dfy | one publisher session as an event-driven machine |
| Admission.dfy | the shared publisher count under interleaved constructors |

## What is assumed

- A batch commits as a whole or not at all; whether it commits is a parameter of each call. A
  registry read (`Get`) and an iterator do not fail, and an iterator sees one consistent snapshot
  in ascending byte order.
- `write` and `truncateOldest` are each one atomic step, except in TruncationRace.dfy and
  Interleaving.dfy, which take that assumption away and give the exact price.
- A packet is stored as its serialized fields in field order: `payload` stands for the bytes of
  every field before the sequence number, and the number follows as field 7, a varint. Every
  packet that reaches the store carries one.
- `toupper` is the C-locale ASCII map; protobuf strings are byte strings.
- 64-bit sums wrap around in the model exactly where they do in the code. The theorems say for
  which values that matters.
- The store writer's loop body is commented out in the code. EndToEnd.dfy uses the first-in,
  first-out drain it sketches: one batch is held and retried until a commit succeeds, then
  discarded together with the packets no key can be built for.
- The transport completes only reads that were started (PublishSession.dfy).

## Where the code and its documentation part

The model follows the code.

- `truncateOldest` is documented to return the number of packets purged. It returns a span of
  sequence numbers. For unique numbers that is an upper bound (`Density.RemovesAtMostReported`), and
  the number of packets exactly when no number up to the cutoff is missing
  (`Density.CountIsExactIff`). One stream holding 1 and 3 shows both failures: asked for 2 packets
  it reports 2 and removes one; asked for 1, twice, it reports 1 each time and the second call
  removes none (`Density.GapMiscounts`). `Density.RemovesNothingIff` says when a call removes nothing.
- It is documented to return 0 when nothing is left. With numbers at the top of the 64-bit range
  its sums wrap: it reports progress and changes nothing (`Truncation.WrappedCallStalls`).
  `Truncation.TruncationMeetsIntent` and `Truncation.SpanShrinksIff` say exactly when it does what
  it is for.
- The monitor's inner loop relies on that progress. `Truncator.LoopEndsIff` says exactly when it
  ends, `Truncator.RoomyLoopEnds` gives a condition to check beforehand, and
  `Truncator.CoveredLoopEndsIff` the exact one for a registry without gaps.
- The monitor's `int` total can read a productive round as idle: on a registry without gaps exactly
  when it spans 2^31 numbers or more (`Truncator.MisreadIff`). Two packets numbered 1 and 2^31 + 1
  suffice (`Truncator.TwoPacketsMisread`).
- A comment in `write` argues that there is a single writer thread; truncation runs on another
  (`TruncationRace.RaceIsSafeIff`, `TruncationRace.RaceBreaksIndex`). The other half of the race, a
  truncation inside a write, is harmless for broker-numbered packets (`TruncationRace.StaleWriteIsSafe`)
  and not in general (`TruncationRace.TruncatedWriteKeepsIndexIff`,
  `TruncationRace.StaleWriteBreaksIndex`). Over whole runs of both threads the index survives exactly
  when every commit is harmless (`Interleaving.InterleavedRunAgreesIff`). After the race a restart
  reuses the stranded packet's number and writes over it (`Aftermath.RaceLosesPacket`).
- The publisher limit can be overshot, by less than the number of constructors running at once
  (`Admission.CountIsBounded`, `Admission.BoundIsReached`). The count is the registered sessions
  exactly when the last start or stop found none (`Admission.CountIsRegisteredIff`); a session that
  closes after a stop drives it below zero (`Admission.LateDoneGoesNegative`).

## Model

| member | source | states |
|---|---|---|
| ByteStrings.PutBigEndian64 | src/rocksDatabase.cpp:51-57 | the shift loop appends the eight big-endian bytes of the value |
| ByteStrings.GetBigEndian64 | src/rocksDatabase.cpp:61-69 | the accumulator loop reads back the number those eight bytes encode; no bit is lost to the 64-bit shift |
| ByteStrings.Encode64RoundTrip | src/utilities.cpp:53-74 | encoding then decoding a 64-bit number is the identity |
| ByteStrings.Encode64Order | src/utilities.cpp:53-61 | bytewise comparison of encoded numbers is numeric comparison, and encoding is injective |
| ByteStrings.LessFixedWidth | include/uDataPacketBroker/utilities.hpp:33-45 | keys made of equal-width slots compare slot by slot |
| ByteStrings.SortedKeysMeaning | src/rocksDatabase.cpp:230-232 | an iteration visits every key exactly once in strictly ascending byte order |
| KeyCodec.AppendPaddedComponent | src/utilities.cpp:22-51 | what is appended holds the code letter by letter, none in lower case, then zeros; a refusal blames emptiness, else length, else a zero byte |
| KeyCodec.ToStreamKey | src/utilities.cpp:211-239 | the slot-by-slot build spells network, station, folded location and channel, or reports the first of them in key order that does not fit, and why |
| KeyCodec.StreamKeyLayout | src/utilities.cpp:211-239 | there is a key if and only if every code fits; byte by byte it spells the codes; an error is reported if and only if it blames the first misfit |
| KeyCodec.KeyHasNoLowerCase | src/utilities.cpp:45-49 | no byte of a stream key is a lower-case letter |
| KeyCodec.ToPacketKey | src/utilities.cpp:242-255 | stream key followed by the big-endian sequence number, or the stream key's error |
| KeyCodec.PaddingKeepsOrder | src/utilities.cpp:22-51 | zero padding neither reorders nor merges null-free codes |
| KeyCodec.BlankLocationsShareKey | src/utilities.cpp:93-106 | identifiers that differ in location only: unset, empty and "--" share one canonical form and one key, and no other location shares it |
| KeyCodec.CanonicalIdempotent | src/utilities.cpp:91-106 | folding twice is folding once, keeps encodability and keeps the key |
| KeyCodec.StreamKeyRoundTrip | src/utilities.cpp:258-281 | decoding an encoded stream key yields the canonical identifier |
| KeyCodec.DecodedCodes | src/utilities.cpp:258-281 | decoding any 32 bytes reads each code up to its slot's first zero byte, and an empty location as "--" |
| KeyCodec.PacketKeyRoundTrip | src/utilities.cpp:284-303 | decoding an encoded packet key yields the canonical identifier and the same sequence number |
| KeyCodec.SameKeyIffSameStream | src/utilities.cpp:211-239 | two encodable identifiers share a stream key if and only if their canonical forms are equal |
| KeyCodec.SameKeyIffSameText | src/utilities.cpp:17-51 | two raw identifiers share a key if and only if network, station and channel agree byte by byte up to ASCII case, and their locations do or are both blank |
| KeyCodec.StreamKeyImage | src/utilities.cpp:211-281 | a 32-byte string is some identifier's key if and only if decoding and re-encoding returns it |
| KeyCodec.StreamKeyOrder | include/uDataPacketBroker/utilities.hpp:33-45 | byte order on stream keys is network, station, location, channel order on canonical identifiers, both ways |
| KeyCodec.PacketKeyOrder | include/uDataPacketBroker/utilities.hpp:33-45 | byte order on packet keys is canonical stream order, then numeric sequence order, both ways |
| KeyCodec.RangeIsOlderTail | src/rocksDatabase.cpp:510-514 | a key lies in the deleted byte range if and only if it belongs to that stream and its number is below the cutoff |
| StoreModel.EntryRoundTrip | src/rocksDatabase.cpp:341-346 | a 24-byte registry value gives back min, max and signed last-received time |
| StoreModel.EntryLayout | src/rocksDatabase.cpp:341-346 | a registry value holds min, max and the time's 64 bits at bytes 0, 8 and 16, each big-endian |
| StoreModel.ValueRoundTrip | src/rocksDatabase.cpp:286-295 | a packet value gives back the receipt time, negative ones included, and the bytes stored after it |
| StoreModel.ValueLayout | src/rocksDatabase.cpp:284-294 | a packet value holds the time's 64 bits, then version 1, then the packet from byte 9 on |
| StoreModel.SerializedCarriesNumber | src/broker.cpp:288-290 | the serialized packet carries the stamped number in its tail, and nothing before it depends on the number |
| StoreModel.GlobalMax | src/rocksDatabase.cpp:225-245 | bounds every registered max and is attained unless it is 0 |
| StoreModel.GlobalMin | src/rocksDatabase.cpp:455-480 | bounds every registered min from below and is attained unless nothing is registered |
| RocksStore.RocksDatabase.GetGlobalSequenceNumber | src/rocksDatabase.cpp:225-245 | the registry scan returns the largest readable max, for any registry contents |
| RocksStore.RocksDatabase.Write | src/rocksDatabase.cpp:247-367 | with a successful commit the whole new database is that of inserting the items one by one, and the unkeyable packets come back in order; with a failed one nothing changes and every packet comes back, each in its place |
| RocksStore.RocksDatabase.PlanWrite | src/rocksDatabase.cpp:247-347 | the batch planned from one registry, applied to whatever the store holds by then, is the stale write of Snapshots.dfy; the unkeyable packets come back in order |
| RocksStore.RocksDatabase.FillBatch | src/rocksDatabase.cpp:265-315 | the puts store every keyable item; the aggregates, one per touched stream, agree with inserting one by one into any registry; rejects are the others in order |
| RocksStore.RocksDatabase.MergeRegistry | src/rocksDatabase.cpp:317-347 | in any iteration order, the batch also puts every aggregate merged with the registry that was read, whatever store it is applied to |
| RocksStore.MergedValue | src/rocksDatabase.cpp:322-346 | the value put for one aggregate decodes to the smaller min, the larger max and the later time of the aggregate and what the registry holds, or to the aggregate if that cannot be read |
| RocksStore.PacketValue | src/rocksDatabase.cpp:284-294 | time, version byte and serialized packet in that layout |
| RocksStore.AggregateStep | src/rocksDatabase.cpp:297-314 | widening an aggregate by one packet stays in step with inserting that packet on its own |
| RocksStore.AggregatesSuffice | src/rocksDatabase.cpp:317-347 | merging one aggregate per touched stream once gives the entries of merging after every packet |
| RocksStore.RocksDatabase.TruncateOldest | src/rocksDatabase.cpp:438-560 | the whole new database and the return value, with 64-bit wrap-around, for any registry contents; a failed commit changes nothing and returns 0 |
| RocksStore.RocksDatabase.PlanTruncation | src/rocksDatabase.cpp:441-533 | the batch planned from one registry, applied to whatever the store holds by then, is the stale purge of Snapshots.dfy at the clamped cutoff; the planned count is the wrapped difference |
| RocksStore.RocksDatabase.Snapshot | src/rocksDatabase.cpp:446-480 | the readable registry keys in order, with the true global bounds |
| RocksStore.RocksDatabase.PurgeBatch | src/rocksDatabase.cpp:502-533 | applied to any store, the batch deletes every selected stream's byte range and reaps or advances its entry |
| RocksStore.RocksDatabase.PurgeEntry | src/rocksDatabase.cpp:504-533 | one round of that loop: skip, reap or advance |
| RocksStore.RocksDatabase.Query | src/rocksDatabase.cpp:562-612 | the answers to the keyable requests, in request order; the next three rows say what they are |
| QueryMeaning.AnswerToOne | src/rocksDatabase.cpp:568-609 | one request: nothing if it cannot be keyed, else exactly that stream's readable packets from the requested number on, strictly ascending, each with the number of its key and the time and bytes of its value |
| QueryMeaning.AnswerIsExact | src/rocksDatabase.cpp:568-609 | on an agreeing store, exactly the stored packets of the stream from the requested number on |
| QueryMeaning.AnswerSplits | src/rocksDatabase.cpp:568-611 | the answer to a list of requests is the answers to its parts, in order |
| RocksStore.RocksDatabase.Scan | src/rocksDatabase.cpp:582-609 | seek-and-scan with an early stop collects exactly the stream's readable packets from the start number on |
| RocksStore.ScanComplete | src/rocksDatabase.cpp:584-592 | stopping at the first key without the prefix loses nothing |
| RocksStore.RocksDatabase.LastReceived | src/rocksDatabase.cpp:634-640 | the third field of a readable value, else 0 |
| RocksStore.RocksDatabase.ReadResponse | src/rocksDatabase.cpp:598-607 | time and payload from the value, number from the tail of the key |
| RocksStore.RocksDatabase.QueryAvailableStreams | src/rocksDatabase.cpp:614-646 | one entry per decodable registry key in key order, time 0 when the value is too short |
| RegistryMeaning.ListingOfAnyRegistry | src/rocksDatabase.cpp:622-645 | for any registry contents: exactly one line per 32-byte key, with its decoded codes and its entry's time, or 0 when the value is too short |
| RegistryMeaning.WriteIsTight | src/rocksDatabase.cpp:297-346 | after a write each touched stream's entry is exactly the smallest number, the largest number and the latest time among its old entry and the items of that stream |
| RegistryMeaning.EntryTimeWasReceived | src/rocksDatabase.cpp:247-560 | over every run, an entry's time is the receipt time of some committed item of that stream |
| RegistryMeaning.ListedTimeWasReceived | src/rocksDatabase.cpp:614-646 | over every run, each listed time is the receipt time of a committed packet of the listed stream |
| StoreIndex.ReachableIndexAgrees | src/rocksDatabase.cpp:247-560 | after any run of writes and truncations, with any commits failing, every stored packet's stream is registered and bounded by its entry, and every registered max is stored |
| StoreIndex.RegisteredIffStored | src/rocksDatabase.cpp:516-530 | a stream is registered if and only if it holds a packet |
| StoreIndex.PutKeepsIndex | src/rocksDatabase.cpp:295-346 | storing one packet keeps the index in agreement |
| StoreIndex.PurgeKeepsIndex | src/rocksDatabase.cpp:502-533 | purging up to any cutoff keeps the index in agreement |
| StoreIndex.PurgeIsGlobalCut | src/rocksDatabase.cpp:499-515 | per-stream byte-range deletes on registry-selected streams drop exactly the older packets of every stream |
| StoreIndex.PurgedIffOlder | src/rocksDatabase.cpp:504-515 | a stored packet falls in a deleted range if and only if its number is below the cutoff; skipped streams hold nothing older |
| StoreIndex.BatchSplit | src/rocksDatabase.cpp:265-347 | writing A and then B gives the packets, registry and rejects of writing them as one batch |
| StoreIndex.LastOneWins | src/rocksDatabase.cpp:268-295 | every keyable item is stored under its key, the last with that key winning |
| StoreIndex.WriteTouchesOnlyItsKeys | src/rocksDatabase.cpp:268-295 | a key no item has is neither added, removed nor changed |
| StoreIndex.WriteAddsItsKeys | src/rocksDatabase.cpp:268-295 | a write removes no key, and every new key is some keyable item's |
| StoreIndex.UnkeyableMeaning | src/rocksDatabase.cpp:274-281 | a packet comes back from a committed write if and only if it was given and cannot be keyed |
| StoreIndex.GlobalMaxIsNewestStored | src/rocksDatabase.cpp:225-245 | the recovered number bounds every stored number and is one of them, or 0 for an empty store |
| Truncation.TruncationMeetsIntent | src/rocksDatabase.cpp:486-533 | the code leaves the intended packets and registry if and only if neither 64-bit sum wraps, and then reports the intended count |
| Truncation.TruncationLeavesSuffix | src/rocksDatabase.cpp:486-533 | without wrap exactly the stored packets from the cutoff on are left, in every stream |
| Truncation.WrapPurgesNothing | src/rocksDatabase.cpp:488-493 | when a sum wraps the call changes nothing |
| Truncation.ZeroMeansEmpty | src/rocksDatabase.cpp:481-497 | a committed positive request reports 0 if and only if nothing is stored, or the registry spans all of 0 to 2^64 - 1 |
| Truncation.TruncateKeepsMax | include/uDataPacketBroker/rocksDatabase.hpp:86-91 | the recovered sequence number is unchanged unless truncation empties the store |
| Truncation.WrappedCallStalls | src/rocksDatabase.cpp:488-497 | one packet numbered within a request of 2^64, for every number and request: the call reports progress and changes nothing |
| Truncation.TruncateNarrows | src/rocksDatabase.cpp:486-533 | no call raises the newest number, lowers the oldest or widens the span |
| Truncation.SpanShrinksIff | src/rocksDatabase.cpp:486-497 | a call that reports progress shrinks the registered span by at least what it reports if and only if no sum wraps; otherwise it changes nothing |
| Truncation.CoveredPurge | src/rocksDatabase.cpp:504-530 | when the registered ranges leave no number between the bounds out, the oldest number after a purge is the cutoff, and they still leave none out |
| Density.RemovesAtMostReported | include/uDataPacketBroker/rocksDatabase.hpp:86-91 | with unique numbers the packets removed never exceed the reported count, wrap-around included |
| Density.CountIsExactIff | src/rocksDatabase.cpp:486-493 | with unique numbers the reported count is the packets removed if and only if every number from the oldest to the cutoff is stored; when a sum wraps, if and only if the range is full and 0 is reported |
| Density.GapMiscounts | src/rocksDatabase.cpp:486-493 | one stream holding a and b with a number missing between: asked for b - a it reports b - a and removes one; the second request for 1 reports 1 and removes none |
| Density.RemovesNothingIff | src/rocksDatabase.cpp:486-533 | a call removes no packet if and only if a sum wraps or nothing stored is below the cutoff; it still reports progress unless the range is full |
| Density.DenseCountIsExact | src/rocksDatabase.cpp:486-493 | with dense numbers the reported count is the packets removed if and only if nothing wraps or nothing happens |
| Density.TruncateKeepsDense | src/rocksDatabase.cpp:486-533 | truncation keeps a dense store dense |
| Density.AppendKeepsDense | src/rocksDatabase.cpp:486-487 | storing the next number keeps a dense store dense |
| Density.TruncationsComposeIff | src/rocksDatabase.cpp:486-533 | on a registry without gaps, truncating a and then b is truncating a + b, packets and registry, if and only if the store is empty, a + b does not wrap, or a and b each wrap |
| TruncationRace.StalePurgeKeepsIndexIff | src/broker.cpp:102-107 | a purge committed from a stale registry keeps the index if and only if no packet past the cutoff in a selected stream escapes the snapshot's entry |
| TruncationRace.RaceIsSafeIff | src/rocksDatabase.cpp:317-318 | a broker-numbered write in the gap is safe if and only if it touches no stream the truncation selected |
| TruncationRace.RaceBreaksIndex | src/rocksDatabase.cpp:502-537 | one packet truncated while its stream's next is written leaves a stored packet unregistered |
| TruncationRace.StaleWriteKeepsIndexIff | src/rocksDatabase.cpp:317-349 | a write committed after packets were removed behind its registry reads, each made at its own moment, keeps the index if and only if every stream it touches keeps the newest packet read of it, or gets one at least as new |
| TruncationRace.TruncatedWriteKeepsIndexIff | src/rocksDatabase.cpp:317-349 | with a purge at any cutoff in the gap: if and only if every reaped stream the write touches gets a packet at least as new as its newest |
| TruncationRace.StaleWriteIsSafe | src/rocksDatabase.cpp:317-349 | so a truncation between a broker-numbered write's registry reads and its commit keeps the index |
| TruncationRace.StaleWriteBreaksIndex | src/rocksDatabase.cpp:317-349 | without broker numbering it does not: number 5 truncated while number 3 of its stream is written |
| Snapshots.FreshReads | src/rocksDatabase.cpp:317-349 | with nothing in the gap the stale write is the write |
| Snapshots.FreshSnapshot | src/rocksDatabase.cpp:446-537 | with nothing in the gap the stale purge is the purge |
| Interleaving.InterleavedRunAgreesIff | src/rocksDatabase.cpp:247-560 | over every interleaving of the two threads, each registry read of a write, the scan of a truncation and each commit a step of its own and any commit failing, the index agrees throughout if and only if every commit that lands is harmless |
| Interleaving.BrokerRunAgreesIff | src/broker.cpp:102-107 | when writes carry broker numbers, only truncations can do harm |
| Interleaving.StepKeepsIndexIff | src/rocksDatabase.cpp:247-560 | one commit keeps the index if and only if it is harmless; reads and failed commits always do |
| Aftermath.UnregisteredIsOverwritten | src/broker.cpp:69-71 | any stored packet numbered above the recovered maximum: the broker started on that store gives its number away again, and a packet of its stream replaces it |
| Aftermath.RaceLosesPacket | src/broker.cpp:69-71 | after the smallest race the registry is empty, numbering restarts at 1, and the second packet to arrive replaces the one the race left |
| QueryMeaning.QueryIsExact | src/rocksDatabase.cpp:562-612 | one request is answered with exactly that stream's stored packets from the start number on, strictly ascending |
| QueryMeaning.AnswerOneMeaning | src/rocksDatabase.cpp:582-609 | the same for any packets family, values too short to read left out |
| QueryMeaning.QueryRecoversWrite | src/rocksDatabase.cpp:593-608 | whatever spelling of the identifier is used, a query recovers the time, serialized packet and number last written |
| QueryMeaning.QueryReturnsOnlyWritten | src/rocksDatabase.cpp:584-608 | after any run of writes and truncations, any commits failing, every response is the last committed item with its key, written to that canonical stream; nothing comes from a neighbour |
| QueryMeaning.StoredHasLastWord | src/rocksDatabase.cpp:268-295 | whatever such a run has stored is the value of the last committed item with that key |
| QueryMeaning.ReachableNamesStreams | src/rocksDatabase.cpp:282-346 | every registered key in a reachable store is some identifier's key |
| QueryMeaning.AvailableStreamsMeaning | src/rocksDatabase.cpp:614-646 | a canonical identifier is listed if and only if its stream holds a packet |
| QueryMeaning.AvailableStreamsOrder | src/rocksDatabase.cpp:622-645 | the listing is in strict canonical order, so no stream is listed twice |
| QueryMeaning.AvailableTimeBounds | src/rocksDatabase.cpp:634-643 | the listed time is no earlier than any stored receipt of that stream |
| Truncator.TruncateToFit | src/broker.cpp:183-189 | whenever the loop ends at all: it stops with the size in bounds or after one more call that returned 0, which if committed leaves an empty store or a full range; its int total is the 32-bit truncation of the counts, and positive exactly for a productive round when the span is below 2^31 |
| Truncator.LoopEndsIff | src/broker.cpp:183-189 | for any sizes and commits, the loop ends if and only if, once it reaches a store a call cannot change, a later size fits or a later commit fails |
| Truncator.StuckForever | src/broker.cpp:184-187 | if no size fits and no commit fails, such a store keeps the loop going for ever |
| Truncator.RoomyLoopEnds | src/broker.cpp:183-189 | if the newest number plus the chunk is below 2^64 the loop always ends |
| Truncator.CoveredLoopEndsIff | src/broker.cpp:183-189 | on a registry without gaps, sizes never fitting and commits never failing, the loop ends if and only if the end of the last chunk is below 2^64, or the range is full |
| Truncator.TotalWithinSpan | src/broker.cpp:185-188 | short of such a store, k productive calls report at least k and at most the registered span they consumed |
| Truncator.MisreadIff | src/broker.cpp:182-191 | on a registry without gaps, with room above it, and a chunk that is a positive int: some course of sizes makes a productive round look idle if and only if the span is 2^31 or more |
| Truncator.TwoPacketsMisread | src/broker.cpp:182-191 | packets 1 and 2^31 + 1 of one stream, truncated by the default 128: for some sizes the loop ends after productive calls with a total of 0 or less |
| Truncator.Round | src/broker.cpp:179-199 | without a size limit nothing happens; with one the pause follows the 32-bit total, and halves exactly after progress when the span is below 2^31 |
| Truncator.TruncatingRounds | src/broker.cpp:190-194 | k truncating rounds from the base interval give max(10, base / 2^k) |
| Truncator.IdleRounds | src/broker.cpp:195-198 | n idle rounds from c give min(base, c * 2^n) |
| Truncator.MixedRounds | src/broker.cpp:190-198 | any mix of rounds stays between 10 and the base interval |
| Pipeline.MakeRoom | src/broker.cpp:297-301 | keeps the longest suffix that leaves room for one more |
| Pipeline.ImportKeepsNewest | src/broker.cpp:229-238 | nothing is dropped up to and including the limit; past it the newest limit - 1 packets stay, in order |
| Pipeline.PopDownTo | src/broker.cpp:297-301 | popping from the front until there is room keeps that suffix and counts what went |
| Pipeline.Broker.AddPacketCallback | src/broker.cpp:215-251 | a valid packet is queued, after purging an overfull queue; an invalid one changes nothing |
| Pipeline.Broker.TakeAndNumber | src/broker.cpp:269-290 | takes the oldest import, changes its number to the next 64-bit counter value and nothing else, and pairs it with the time just read |
| Pipeline.Broker.EnqueueForPublication | src/broker.cpp:292-304 | the numbered packet joins the publish queue, oldest ones making room |
| Pipeline.Broker.EnqueueForStore | src/broker.cpp:306-323 | the same packet with its receipt time joins the store queue, and the propagator is free |
| Pipeline.Broker.TakeForPublication | src/broker.cpp:338-351 | pops the oldest publishable packet, if any |
| Pipeline.Broker.DrainForStore | src/broker.cpp:395-406 | the sketched drain hands over the whole queue, oldest first |
| PipelineHistory.HistoryConsistent | src/broker.cpp:215-351 | in every reachable state each queue is the unclaimed tail of its arrivals, the claimed part is accounted for, and the packet in flight is the last one numbered |
| PipelineHistory.HistoryFollowsRun | src/broker.cpp:215-351 | recording fates does not alter the run |
| PipelineHistory.Conservation | src/broker.cpp:226-323 | accepted = queued + dropped + numbered, and for each output numbered = queued + dropped + consumed + in flight |
| PipelineHistory.NumberingIsFifo | src/broker.cpp:269-290 | numbered packets are accepted packets at strictly increasing positions, with the same identifier and payload, numbered consecutively |
| PipelineHistory.NumberingTimes | src/broker.cpp:285-312 | over every run, each numbered packet carries the time read by its own event, the events are in numbering order, and they are exactly those that found the propagator free and a packet waiting |
| PipelineHistory.OutputsAreFifo | src/broker.cpp:292-351 | what each output hands over sits at strictly increasing positions of the numbering |
| PipelineHistory.QueuesAreRuns | src/broker.cpp:264-323 | each output queue is a gap-free run ending at the last number sent to it, at most 4096 long; the import queue holds at most its limit plus one |
| PipelineHistory.NumbersAscendIff | src/broker.cpp:289-290 | numbers ascend strictly over a run if and only if the counter does not pass 2^64 - 1 between two of them |
| EndToEnd.BrokerRunsStayOrdered | src/broker.cpp:69-71 | over any interleaving and any restarts, waiting numbers ascend above every stored number and a number names at most one stored packet, as long as the counter has room |
| EndToEnd.RoomForAll | src/broker.cpp:69-71 | the counter has room throughout if the recovered number plus the packets numbered, restarts or not, stays below 2^64 |
| EndToEnd.NumberingKeepsOrderIff | src/broker.cpp:288-290 | numbering a packet keeps that order if and only if the counter is below 2^64 - 1, or nothing is waiting and nothing stored |
| EndToEnd.WriteNeverOverwrites | src/rocksDatabase.cpp:268-295 | a drained batch hits no stored key and no key twice, and leaves every stored value as it was |
| Provenance.NothingIsInvented | src/broker.cpp:215-323 | from an empty store, whatever is queued, held or stored came from an accepted packet, under its own stream, with its own bytes stamped with the number its key carries, and at a time read while numbering |
| EndToEnd.WriteKeepsOrder | src/broker.cpp:387-409 | committing the held batch keeps the order |
| EndToEnd.TruncationKeepsOrder | src/broker.cpp:184-189 | truncating keeps the order |
| EndToEnd.StartedOrdered | src/broker.cpp:69-71 | resuming after the recovered maximum establishes the order on any agreeing store |
| Delivery.NumberingResumes | src/broker.cpp:69-71 | the first packet after a restart is numbered one past the newest stored, and is otherwise as it came |
| Delivery.DrainedIsNotLost | src/broker.cpp:387-409 | over every interleaving, failed commits included, a drained keyable packet is held or stored as itself, unless a restart found it held or a truncation removed it |
| EndToEnd.WrapBreaksOrder | src/broker.cpp:289-290 | a store holding number 2^64 - 1: the next packet is numbered 0 and the order is lost |
| PublishSession.AsynchronousReader.constructor | src/publishService.cpp:93-148 | refused for want of room or a token, else registered and reading, or finished if the service is stopping |
| PublishSession.AsynchronousReader.OnReadDone | src/publishService.cpp:151-235 | the whole new session after one completed read |
| PublishSession.OneReadOrFinished | src/publishService.cpp:141-235 | for every trace Finish is called at most once, and exactly one read is outstanding until then and none after |
| PublishSession.CountersMatchTrace | src/publishService.cpp:155-187 | total, invalid and streak counters and the last-packet identifier are what the trace says; server errors neither count nor reset the streak |
| PublishSession.ClosesForInvalidityIff | src/publishService.cpp:173-185 | the session closes for invalidity if and only if the streak passes the limit and the limit is below 2^32 - 1 |
| PublishSession.SummaryIff | src/publishService.cpp:211-233 | a response is filled if and only if the publisher ended the stream, and it reports the whole trace under the right status |
| PublishSession.StatusIff | src/publishService.cpp:93-233 | for every trace, which status closes the session and exactly when: no room, bad token, too many invalid packets, service stopping, end of stream |
| PublishSession.RegisteredIffAdmitted | src/publishService.cpp:93-135 | a session is registered if and only if it found room and its token held, and only such a session ever reads |
| Admission.PublishService.CheckLimit | src/publishService.cpp:93-101 | passes if and only if the count is below the limit, and reserves nothing |
| Admission.PublishService.RefuseToken | src/publishService.cpp:105-118 | a refused session leaves the count alone |
| Admission.PublishService.CountIn | src/publishService.cpp:130-135 | the later increment registers the session |
| Admission.PublishService.OnDone | src/publishService.cpp:237-259 | only a registered session is counted out |
| Admission.PublishService.StoreZero | src/publishService.cpp:345-348 | start and stop zero the count whoever is still connected |
| Admission.CountIsBounded | src/publishService.cpp:93-135 | under any interleaving the count stays at most limit + crowd - 1, and live sessions at most that plus those a reset forgot |
| Admission.CountIsRegisteredIff | src/publishService.cpp:130-417 | over every run, starts and stops included: the count is the registered sessions if and only if the last start or stop found none, and negative if and only if fewer are left than it found |
| Admission.CleanCycleCounts | src/publishService.cpp:345-417 | after a start or stop that finds no session registered, until the next, the count is the registered sessions |
| Admission.BoundIsReached | src/publishService.cpp:93-135 | for every limit and crowd some interleaving reaches limit + crowd - 1 |
| Admission.LateDoneGoesNegative | src/publishService.cpp:247-417 | after any run, a registered session that closes right after a stop takes the count to -1 |

## Left out

- Truncator.TruncateToFit: requires that the loop ends, which it need not (`Truncator.LoopEndsIff` is the exact condition); writes between its calls are not modelled.
- Truncator.MisreadIff: for a registry whose ranges leave no gap; with gaps a call can move the oldest number further than it reports, and only `Truncator.TotalWithinSpan` is claimed.
- Density.TruncationsComposeIff: for a registry whose ranges leave no gap; with gaps two calls can remove more than one.
- RocksStore.RocksDatabase.PlanWrite: takes the answers to its registry reads as one map; Interleaving.dfy says which stores answered them.
- EndToEnd.BrokerRunsStayOrdered: relies on the sketched store drain, since the loop in the code has no body and is never started.
- RocksDB itself: opening, column-family options, prefix bloom filters, time-to-live expiry, compaction (identity on contents), flushing, and the size on disk (an arbitrary reading).
- Durability across a crash with the write-ahead log disabled.
- Failing registry reads: the code treats a failed `Get` like a missing entry.
- Protobuf serialization and parsing of packets.
- The one-packet `write` and `query` wrappers of src/dataPacketStore.cpp; the first returns the negation of what its documentation says.
- Packet validation (`isValid`): its verdict is an argument of `AddPacketCallback`.
- gRPC server start-up and shutdown, TLS and reading of tokens: their outcome is an argument of the session's constructor.
- Metrics, logging, options classes, program options and `checkFuturesOkay`.
- Clocks and sleeping: receipt times are arguments, pauses are numbers.
- The decoding functions write through an output parameter in the code; here they return the identifier.
