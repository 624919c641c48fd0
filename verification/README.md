# PulseMesh: delivery and storage, verified

PulseMesh agents sample metrics, collect them into batches with stable identifiers, hold every batch in a
bounded queue until it is acknowledged, and resend after a disconnect. The aggregator commits batches
into an in-memory time-series store that recognises repeated identifiers, keeps the newest samples of
each metric name, and answers range, latest-value and event-replay queries. This project models both
sides and the protocol between them, and proves what users of the system rely on.

**The store** (`InMemoryTimeSeriesStore`, `StoreModel`, `Retention`, `CommitRuns`). The class carries the
algorithms of the code: append or binary search, copy on first touch, publication by swap or move, seek
and early stop, backward scan, scan and sort. A ghost field lists the batches accepted so far; the
validity predicate says that the whole state is a function of that list. Each method is proved equal to a
specification on the state, and the theorems are about the specification: event IDs are dense, duplicates
leave no trace, and each buffer is the newest part of the sorted history of its name.

**Queries** (`Numerals`, `PageToken`, `PageWalk`, `Pagination`, `Replay`, `Aggregates`, `Eviction`,
`Answers`). Page tokens are the actual strings. A *session* follows `next_page_token` while any batches
are committed between pages; a *polling* sequence resumes event queries at the last event received. The
theorems hold for all sessions and polling sequences, in terms of the store's answers. `Eviction` says
exactly when bounded buffers answer for the whole history; `Answers` describes every answer by the fields
of the request and of the samples.

**The agent** (`PendingBatches`, `QueueModel`, `QueueOutcomes`, `BatchBuilding`, `BuilderModel`). The
queue invariant that the code relies on without stating it is that in-flight entries form a prefix;
conservation, sending order and overflow follow from it. Every operation is described by the entries alone.
Identifiers are proved injective as strings.

**The protocol** (`Delivery`, `Recovery`). Any number of agents, each a builder and a queue, a network
that may lose, repeat, delay and reorder batches and acknowledgements, and one store. Proved in every
reachable state: effectively-once commitment, no silent loss, acknowledged means committed, agreement of
validation along the pipeline, and the possibility to drain every queue. The sender and the server that
connect the parts are not part of the repository yet; the steps follow the message contract
(`proto/metrics.proto:20-48`) and the policy stated in the queue
(`cpp/client/impl/pending_batch_queue/pending_batch_queue.cpp:27-28` and `:81`). A restarted agent is a
further agent with its own nonce.

**The collector** (`ProcMetrics`, `CollectorModel`, `CollectorAnswers`). Guarded 64-bit arithmetic on
counters, the moving baseline, the telescoping of percentages over runs, and every answer told from the
numbers and lines of the two sources.

Where code and documentation disagree, the model follows the code:

- `proto/metrics.proto:62-65` promises identical aggregates on every page of a query. Eviction between
  pages can change them: `Eviction.AggregatesCanChange` gives a query, and
  `Eviction.AggregatesIdenticalIff` says exactly when a page repeats the aggregates of the first.
- `proto/metrics.proto:88` reads a zero cursor as "now"; the store treats it as "after event zero".

The modules are checked together with `dafny verify dfyconfig.toml`.

## Model

| member | source | states |
|---|---|---|
| TimeSeriesStore.InMemoryTimeSeriesStore.constructor | cpp/aggregator/impl/in_memory_time_series_store/in_memory_time_series_store.cpp:323-325 | a new store is empty; capacity zero means the default of 10000 |
| TimeSeriesStore.InMemoryTimeSeriesStore.CommitBatch | cpp/aggregator/impl/in_memory_time_series_store/in_memory_time_series_store.cpp:327-379 | the staged, all-or-nothing commit has the outcome and the whole new state of inserting each metric directly into the live buffers in batch order; invalid, duplicate and exhausted calls leave the state identical; every reachable state is a function of the accepted batches |
| TimeSeriesStore.InMemoryTimeSeriesStore.StageBatch | cpp/aggregator/impl/in_memory_time_series_store/in_memory_time_series_store.cpp:348-369 | the live buffers overlaid with the staged copies are the live buffers after the direct insertions, while the live buffers themselves are untouched; event IDs are the next consecutive ones and never pass the 64-bit maximum |
| TimeSeriesStore.InMemoryTimeSeriesStore.StageMetric | cpp/aggregator/impl/in_memory_time_series_store/in_memory_time_series_store.cpp:352-369 | copy on first touch, then insertion into the copy: one metric of the above, for names new and known, first and repeated |
| TimeSeriesStore.InMemoryTimeSeriesStore.PublishStagedBuffers | cpp/aggregator/impl/in_memory_time_series_store/in_memory_time_series_store.cpp:252-266 | swapping buffers of known names and moving in the others, in any order, replaces exactly the staged names and leaves the rest unchanged |
| TimeSeriesStore.InsertBoundedMetric | cpp/aggregator/impl/in_memory_time_series_store/in_memory_time_series_store.cpp:231-250 | append fast path or binary search, then eviction of the front, is ordered insertion bounded by the capacity |
| TimeSeriesStore.UpperBound | cpp/aggregator/impl/in_memory_time_series_store/in_memory_time_series_store.cpp:241-243 | the position found separates the keys not above the new key from those above it |
| TimeSeriesStore.LowerBound | cpp/aggregator/impl/in_memory_time_series_store/in_memory_time_series_store.cpp:272-277 | the position found separates the timestamps below the range start from the others |
| TimeSeriesStore.ComputeStats | cpp/aggregator/impl/in_memory_time_series_store/in_memory_time_series_store.cpp:67-87 | the one-pass accumulation is sum over count, maximum and minimum of all values, and zeros for none |
| TimeSeriesStore.MakeRangeQueryPlan | cpp/aggregator/impl/in_memory_time_series_store/in_memory_time_series_store.cpp:195-229 | each refusal condition in turn; the decoded cursor; zero page size replaced by the default |
| TimeSeriesStore.DraftSample | cpp/aggregator/impl/in_memory_time_series_store/in_memory_time_series_store.cpp:288-307 | one matching sample keeps the page draft (values, page, last returned, has-more) equal to the page of all samples in view so far |
| TimeSeriesStore.BuildRangePage | cpp/aggregator/impl/in_memory_time_series_store/in_memory_time_series_store.cpp:268-319 | seeking, skipping and stopping early give the page, continuation and aggregates of the filter of the whole buffer by inclusive range, snapshot and filters |
| TimeSeriesStore.InMemoryTimeSeriesStore.QueryRange | cpp/aggregator/impl/in_memory_time_series_store/in_memory_time_series_store.cpp:381-411 | the method answers as the specification on the whole state, without changing it |
| TimeSeriesStore.InMemoryTimeSeriesStore.QueryLatest | cpp/aggregator/impl/in_memory_time_series_store/in_memory_time_series_store.cpp:413-438 | the backward scan returns the last match of the buffer, none when there is none, and an error only for bad filters |
| TimeSeriesStore.InMemoryTimeSeriesStore.CurrentEventId | cpp/aggregator/impl/in_memory_time_series_store/in_memory_time_series_store.cpp:440-445 | the counter is the number of samples ever committed |
| TimeSeriesStore.InMemoryTimeSeriesStore.CollectMatches | cpp/aggregator/impl/in_memory_time_series_store/in_memory_time_series_store.cpp:467-479 | scanning all buffers in any order finds what scanning the requested name's buffer finds, because every buffer holds only its own name |
| TimeSeriesStore.InMemoryTimeSeriesStore.QueryEventsAfter | cpp/aggregator/impl/in_memory_time_series_store/in_memory_time_series_store.cpp:447-499 | scan, sort by event ID, truncate: the method answers as the specification, error cases included |
| Answers.MatchesIffAsked | cpp/aggregator/impl/in_memory_time_series_store/in_memory_time_series_store.cpp:50-65 | a sample matches when its name is the one asked for, and its client and every tag as far as they are asked for |
| Answers.RangeAnswer | cpp/aggregator/impl/in_memory_time_series_store/in_memory_time_series_store.cpp:381-411 | any range query not refused: which samples are in view, by their fields and the cursor the token denotes; the page is the next 1000 or page-size of them in key order; the aggregates summarise all of them; a continuation denotes the last one returned exactly when more follow |
| Answers.PageSummarisesView | cpp/aggregator/impl/in_memory_time_series_store/in_memory_time_series_store.cpp:311-314 | on every page of a session maximum and minimum are values of samples in view and bound them all, and average times count is the sum of their values; zeros for none |
| Answers.LatestRefusedIff | cpp/aggregator/impl/in_memory_time_series_store/in_memory_time_series_store.cpp:170-187 | latest-value queries are refused exactly for a missing name or an empty client |
| Answers.LatestAnswer | cpp/aggregator/impl/in_memory_time_series_store/in_memory_time_series_store.cpp:413-438 | otherwise the newest committed sample asked for by name, client and tags, or none exactly when no such sample is retained |
| Answers.EventsRefusedIff | cpp/aggregator/impl/in_memory_time_series_store/in_memory_time_series_store.cpp:450-465 | event queries are refused exactly for a missing name, an empty client, a negative cursor, or a limit outside 1 to 10000 |
| Answers.EventsAnswer | cpp/aggregator/impl/in_memory_time_series_store/in_memory_time_series_store.cpp:467-498 | otherwise the first limit of the retained samples asked for above the cursor, in commit order, with their event IDs |
| Retention.InsertSorted | cpp/aggregator/impl/in_memory_time_series_store/in_memory_time_series_store.h:18-19 | ordered insertion keeps a buffer sorted by (timestamp, event ID) for out-of-order arrivals |
| Retention.RetentionStep | cpp/aggregator/impl/in_memory_time_series_store/in_memory_time_series_store.cpp:246-249 | evicting after one insertion into the truncated history is truncating after insertion into the full history |
| Retention.RetainedIsSortAndTruncate | cpp/aggregator/impl/in_memory_time_series_store/in_memory_time_series_store.h:18-19 | any key-sorted arrangement of the samples committed under a name ends in exactly the retained buffer |
| Retention.ViewShrinks | cpp/aggregator/impl/in_memory_time_series_store/in_memory_time_series_store.cpp:246-249 | a selection that admits none of the later commits only loses entries, from its old end |
| Retention.StaysEvicted | cpp/aggregator/impl/in_memory_time_series_store/in_memory_time_series_store.cpp:246-249 | an evicted sample never comes back |
| StoreModel.ApplyAllRetains | cpp/aggregator/impl/in_memory_time_series_store/in_memory_time_series_store.cpp:346-377 | inserting any list of samples into the buffers of a log gives the buffers of the longer log |
| StoreModel.CommitReaches | cpp/aggregator/impl/in_memory_time_series_store/in_memory_time_series_store.cpp:328-378 | outcome of a commit told from the history alone, each in both directions; the state moves to that of the longer history, or not at all |
| StoreModel.CommitOutcome | cpp/aggregator/impl/in_memory_time_series_store/in_memory_time_series_store.cpp:139-168 | each outcome of a commit in the fields of the batch: which fields make it malformed, an accepted identifier makes it a duplicate, and more metrics than event IDs left make it fail |
| StoreModel.StatsMeaning | cpp/aggregator/impl/in_memory_time_series_store/in_memory_time_series_store.cpp:67-87 | the average is the mean, maximum and minimum are attained and bound all values, and min <= avg <= max |
| CommitRuns.RunReaches | cpp/aggregator/impl/in_memory_time_series_store/in_memory_time_series_store.cpp:327-379 | after any list of commit calls the state is determined by the calls answered committed |
| CommitRuns.DuplicatesLeaveNoTrace | cpp/aggregator/impl/in_memory_time_series_store/in_memory_time_series_store.cpp:329-346 | the state after any calls is the state after only the committed ones, each of which then commits |
| CommitRuns.CommittedAtMostOnce | cpp/aggregator/impl/in_memory_time_series_store/in_memory_time_series_store.cpp:335-338 | after a batch ID has been committed, every later well-formed call with it is a duplicate |
| CommitRuns.EventIdsAreExact | cpp/aggregator/impl/in_memory_time_series_store/in_memory_time_series_store.cpp:340-377 | event IDs ever assigned are 1 to the counter, each once, in commit order, without overflow |
| CommitRuns.BuffersAreNewest | cpp/aggregator/impl/in_memory_time_series_store/in_memory_time_series_store.cpp:231-250 | after any run of calls each buffer is the last capacity entries of all samples committed under its name in key order |
| CommitRuns.BatchOccupiesBlock | cpp/aggregator/impl/in_memory_time_series_store/in_memory_time_series_store.cpp:351-369 | a committed batch owns one block of the log: its metrics in order, consecutive IDs, source replaced by the committing client, everything else unchanged; the next block follows at once |
| PageToken.TakeTokenField | cpp/aggregator/impl/in_memory_time_series_store/in_memory_time_series_store.cpp:98-107 | the field before the first separator and the rest, or nothing and the text untouched |
| PageToken.DecodePageToken | cpp/aggregator/impl/in_memory_time_series_store/in_memory_time_series_store.cpp:109-131 | the scanner accepts and returns what the specification decodes |
| PageToken.DecodeExact | cpp/aggregator/impl/in_memory_time_series_store/in_memory_time_series_store.cpp:109-131 | a token decodes to a cursor if and only if it is the prefix and three numeric fields denoting it, with 0 < event ID <= snapshot |
| PageToken.TokenRoundTrip | cpp/aggregator/impl/in_memory_time_series_store/in_memory_time_series_store.cpp:109-137 | decoding an encoded cursor gives the cursor back, for every 64-bit timestamp and 0 < event ID <= snapshot |
| Numerals.ParseExact | cpp/aggregator/impl/in_memory_time_series_store/in_memory_time_series_store.cpp:89-96 | exactly the texts that spell a 64-bit value (sign, zeros, decimal numeral) are read, as that value; everything else is refused |
| Numerals.NumeralPlaces | cpp/aggregator/impl/in_memory_time_series_store/in_memory_time_series_store.cpp:133-137 | each character of a written number is the digit of its place |
| Numerals.DecimalRoundTrip | cpp/aggregator/impl/in_memory_time_series_store/in_memory_time_series_store.cpp:89-96 | reading back a written decimal gives the number, from the 64-bit minimum to the maximum |
| Pagination.RangeRefusedIff | cpp/aggregator/impl/in_memory_time_series_store/in_memory_time_series_store.cpp:195-229 | a range query is refused exactly for bad filters, an inverted range, an oversized page or a token that denotes no cursor of a snapshot taken by now |
| Pagination.SnapshotViewShrinks | cpp/aggregator/impl/in_memory_time_series_store/in_memory_time_series_store.cpp:285-308 | for a fixed snapshot, what later commits leave in view is a suffix of what was in view |
| Pagination.IssuedTokensStayValid | cpp/aggregator/impl/in_memory_time_series_store/in_memory_time_series_store.cpp:302-317 | a token issued on any request is never the reason for refusing a request in that or any later state |
| Pagination.TokenResumes | cpp/aggregator/impl/in_memory_time_series_store/in_memory_time_series_store.cpp:391-401 | the token issued for a sample resumes at that sample with the same snapshot and page size |
| Pagination.EveryPage | cpp/aggregator/impl/in_memory_time_series_store/in_memory_time_series_store.cpp:268-319 | with commits between pages, every page of a session succeeds, is the next page of the shrinking view, has aggregates of the whole view, and continues exactly when samples are left |
| Pagination.PagesAreSnapshotSamples | cpp/aggregator/impl/in_memory_time_series_store/in_memory_time_series_store.cpp:268-319 | the pages of a session put together are matching in-range samples of the first snapshot, strictly increasing in (timestamp, event ID), so none twice |
| Pagination.CompleteSessionMissesNothing | cpp/aggregator/impl/in_memory_time_series_store/in_memory_time_series_store.cpp:268-319 | a session that ended has returned every matching in-range snapshot sample still retained at the last page |
| Pagination.SessionsAreFinite | cpp/aggregator/impl/in_memory_time_series_store/in_memory_time_series_store.cpp:310-317 | the number of pages is bounded by the samples in view of the first page |
| Eviction.RetainedIffFewNewer | cpp/aggregator/impl/in_memory_time_series_store/in_memory_time_series_store.cpp:246-249 | a committed sample is retained exactly while fewer than capacity samples of its name with a larger key have been committed |
| Aggregates.StatsKeptIff | cpp/aggregator/impl/in_memory_time_series_store/in_memory_time_series_store.cpp:67-87 | losing values in front of others keeps average, maximum and minimum exactly when none are lost; or only zeros, with nothing left; or values of the same mean as those left and within their range |
| Eviction.AggregatesIdenticalIff | proto/metrics.proto:62-65 | a page of a session repeats the aggregates of the first page if and only if the values evicted from view since can be lost in that sense |
| Eviction.LostIffEvicted | cpp/aggregator/impl/in_memory_time_series_store/in_memory_time_series_store.cpp:246-249 | the samples evicted from view are exactly those with at least capacity newer samples of the name by then |
| Eviction.AggregatesCanChange | proto/metrics.proto:62-65 | the promise of identical aggregates fails: a two-page query at capacity two whose average goes from 15 to 20 |
| Eviction.SameSamplesIff | cpp/aggregator/impl/in_memory_time_series_store/in_memory_time_series_store.cpp:285-308 | nothing at all has been evicted from view exactly when nothing was in view or its first sample has fewer than capacity newer ones of the name |
| Eviction.AggregatesStable | proto/metrics.proto:62-65 | under that condition average, maximum and minimum are identical on the first and the later page |
| Eviction.RangeExactIff | cpp/aggregator/impl/in_memory_time_series_store/in_memory_time_series_store.cpp:268-308 | a range query sees what a store without eviction would show exactly when the oldest matching sample of the history has fewer than capacity newer ones |
| Eviction.RangeExactAboveOldest | cpp/aggregator/impl/in_memory_time_series_store/in_memory_time_series_store.cpp:268-308 | a caller can tell: a range starting above the oldest retained timestamp, or a buffer below capacity, loses nothing |
| Eviction.RangeAnswersForHistory | cpp/aggregator/impl/in_memory_time_series_store/in_memory_time_series_store.cpp:381-411 | under that condition the whole answer equals that of a store that never evicts |
| Eviction.RangeAnswerExactIff | cpp/aggregator/impl/in_memory_time_series_store/in_memory_time_series_store.cpp:381-411 | for every request the whole answer equals that of a store that never evicts if and only if it is refused, or the evicted samples of the range can be lost from the aggregates and the first sample still to be returned is retained |
| Eviction.RangeInexactAtOldest | cpp/aggregator/impl/in_memory_time_series_store/in_memory_time_series_store.cpp:268-308 | a range starting at the oldest retained timestamp itself may miss a sample: a store of capacity one that committed one sample twice answers it differently from a larger one |
| Eviction.LatestIsNewest | cpp/aggregator/impl/in_memory_time_series_store/in_memory_time_series_store.cpp:413-438 | a returned metric is the newest match among everything ever committed |
| Eviction.LatestMissesIff | cpp/aggregator/impl/in_memory_time_series_store/in_memory_time_series_store.cpp:413-438 | nothing is returned exactly when every match ever committed has at least capacity newer samples of the name |
| Eviction.UnfilteredLatestIsNeverLost | cpp/aggregator/impl/in_memory_time_series_store/in_memory_time_series_store.cpp:413-438 | without client and tag filters nothing is returned exactly when the name was never committed |
| Replay.MatchingEventsExact | cpp/aggregator/impl/in_memory_time_series_store/in_memory_time_series_store.cpp:467-484 | before truncation an event query holds, in commit order, exactly the committed samples above the cursor that match and are retained |
| Replay.DeliveredOnceInOrder | cpp/aggregator/i_time_series_store.h:57-60 | over any polls answered by the store and resumed at the last event received, with commits between them, received IDs strictly increase, lie between start and current cursor, and belong to committed samples that match |
| Replay.ReplayIsExact | cpp/aggregator/i_time_series_store.h:57-60 | a retained matching event above the starting cursor has been received if and only if its ID is at most the current cursor |
| Replay.ShortAnswerCatchesUp | cpp/aggregator/i_time_series_store.h:57-60 | after an answer shorter than the limit, every matching event committed by then and still retained has been received |
| PendingBatches.PendingBatchQueue.constructor | cpp/client/impl/pending_batch_queue/pending_batch_queue.cpp:9-10 | a new queue is empty; capacity zero means the default of 256 |
| PendingBatches.PendingBatchQueue.Enqueue | cpp/client/impl/pending_batch_queue/pending_batch_queue.cpp:12-46 | result and whole new state of an enqueue: invalid, duplicate, rejected, oldest dropped, appended |
| PendingBatches.PendingBatchQueue.MarkNextInFlight | cpp/client/impl/pending_batch_queue/pending_batch_queue.cpp:48-61 | the first pending entry is marked and its batch returned; nothing else changes |
| PendingBatches.PendingBatchQueue.Acknowledge | cpp/client/impl/pending_batch_queue/pending_batch_queue.cpp:63-78 | only the entry with the ID leaves; an unknown ID changes nothing |
| PendingBatches.PendingBatchQueue.ResetInFlight | cpp/client/impl/pending_batch_queue/pending_batch_queue.cpp:80-86 | the loop clears every mark and changes nothing else |
| PendingBatches.PendingBatchQueue.Size | cpp/client/impl/pending_batch_queue/pending_batch_queue.cpp:88-92 | the size is that of the queue and never above capacity |
| QueueOutcomes.EnqueueAnswer | cpp/client/impl/pending_batch_queue/pending_batch_queue.cpp:12-46 | each of the five answers in both directions, from the batch's fields, the queued IDs and marks, and whether the queue is full |
| QueueOutcomes.EnqueueEffect | cpp/client/impl/pending_batch_queue/pending_batch_queue.cpp:27-45 | with room the batch is appended and nothing else changes; a full queue gives up its oldest pending entry, or the batch when all are in flight, and counts it; refusals change nothing |
| QueueOutcomes.MarkAnswer | cpp/client/impl/pending_batch_queue/pending_batch_queue.cpp:48-61 | the oldest entry not in flight is marked and handed out; none exactly when all are in flight |
| QueueOutcomes.AcknowledgeAnswer | cpp/client/impl/pending_batch_queue/pending_batch_queue.cpp:63-78 | an entry with the ID leaves from whatever position, and nothing else; an unknown ID answers false and changes nothing |
| QueueOutcomes.ResetAnswer | cpp/client/impl/pending_batch_queue/pending_batch_queue.cpp:80-86 | every mark is cleared; batches, order and counter stay |
| QueueOutcomes.GivesUpOnlyWhenFull | cpp/client/impl/pending_batch_queue/pending_batch_queue.cpp:27-41 | an operation evicts or turns away only when a batch is offered to a full queue |
| QueueOutcomes.NothingGivenUpWithRoom | cpp/client/impl/pending_batch_queue/pending_batch_queue.cpp:27-41 | a run that never offers a batch to a full queue drops nothing: what was accepted is queued or acknowledged |
| QueueModel.EnqueueKeepsInv | cpp/client/impl/pending_batch_queue/pending_batch_queue.cpp:12-46 | enqueue keeps: in-flight entries a prefix, distinct IDs, size within capacity; the prefix keeps its length |
| QueueModel.MarkKeepsInv | cpp/client/impl/pending_batch_queue/pending_batch_queue.cpp:48-61 | marking keeps the invariant and lengthens the prefix by one |
| QueueModel.AcknowledgeKeepsInv | cpp/client/impl/pending_batch_queue/pending_batch_queue.cpp:63-78 | acknowledging keeps the invariant |
| QueueModel.ResetKeepsInv | cpp/client/impl/pending_batch_queue/pending_batch_queue.cpp:80-86 | resetting keeps the invariant with an empty prefix |
| QueueModel.OverflowSparesInFlight | cpp/client/impl/pending_batch_queue/pending_batch_queue.cpp:27-41 | overflow drops the oldest pending batch only, leaves every in-flight entry in place, and turns a batch away exactly when all capacity is in flight |
| QueueModel.OldestGoesOut | cpp/client/impl/pending_batch_queue/pending_batch_queue.cpp:48-61 | what goes out is the oldest pending batch; it stays queued and the pending list loses its head |
| QueueModel.ResetRetriesAll | cpp/client/impl/pending_batch_queue/pending_batch_queue.cpp:81-85 | after a disconnect every unacknowledged batch is pending again, in queue order, payload unchanged |
| QueueModel.SentInOrder | cpp/client/impl/pending_batch_queue/pending_batch_queue.cpp:48-61 | between resets, batches sent followed by those pending are a subsequence of those pending at the start followed by those accepted |
| QueueModel.QueueConserves | cpp/client/impl/pending_batch_queue/pending_batch_queue.cpp:12-86 | over any run the invariant holds; accepted batches are, as a multiset, queued, acknowledged or evicted; the queue is a subsequence of the accepted; attempts = size + acknowledged + dropped, up to the wrap of the 64-bit drop counter |
| BatchBuilding.BatchBuilder.constructor | cpp/client/impl/batch_builder/batch_builder.h:40-42 | the sequence starts at one |
| BatchBuilding.BatchBuilder.NextBatchId | cpp/client/impl/batch_builder/batch_builder.cpp:52-61 | the ID of the current sequence number is returned and the counter advances, wrapping at 64 bits |
| BatchBuilding.BatchBuilder.Build | cpp/client/impl/batch_builder/batch_builder.cpp:17-43 | error by error, or the batch with the caller's metrics in order; the i-th batch ever built carries the i-th sequence number |
| BuilderModel.BatchIdInjective | cpp/client/impl/batch_builder/batch_builder.cpp:52-61 | two IDs are equal if and only if client, nonce and sequence are, even with dashes in client IDs |
| BuilderModel.IdsCollideIff | cpp/client/impl/batch_builder/batch_builder.cpp:52-61 | over whole sessions, IDs collide exactly for the same client and nonce and batch numbers equal modulo 2^64 |
| BuilderModel.BatchIdLayout | cpp/client/impl/batch_builder/batch_builder.cpp:55-60 | the identifier character by character: client, dash, sixteen lower-case hexadecimal digits of the nonce, dash, decimal digits of the sequence |
| BuilderModel.BuildOutcome | cpp/client/impl/batch_builder/batch_builder.cpp:17-43 | each error told from the fields; otherwise the caller's metrics unchanged under the client and the next identifier, and the sequence advances |
| BuilderModel.BuildMeaning | cpp/client/impl/batch_builder/batch_builder.cpp:17-43 | a batch is built exactly when the client, the list and every metric are acceptable; it is valid for every store; a failed build consumes no sequence number |
| Numerals.Hex16Fixed | cpp/client/impl/batch_builder/batch_builder.cpp:57-59 | the padded hexadecimal nonce always has sixteen digits and determines the nonce |
| Delivery.StepKeepsInv | cpp/client/impl/pending_batch_queue/pending_batch_queue.cpp:12-86 | every protocol step of any agent, the network or the store keeps the system invariant |
| Delivery.RunInv | proto/metrics.proto:20-48 | the invariant holds in every reachable state of agents with distinct (client, nonce) pairs over a lossy, repeating, delaying, reordering network |
| Delivery.SameIdSameBatch | cpp/client/impl/batch_builder/batch_builder.cpp:52-61 | one ID anywhere in the system means one agent and one payload |
| Delivery.DeliveryOutcome | cpp/aggregator/impl/in_memory_time_series_store/in_memory_time_series_store.cpp:327-379 | a delivered batch is committed exactly when new and event IDs suffice, a duplicate exactly when the same batch is committed, and fails otherwise only by exhaustion |
| Delivery.NoSilentLoss | cpp/client/impl/pending_batch_queue/pending_batch_queue.cpp:12-86 | in every run each batch built is queued, committed, evicted or turned away; built = queued + acknowledged + evicted + turned away, and the drop counter counts the last two |
| Delivery.AcknowledgedMeansCommitted | proto/metrics.proto:36-40 | every batch removed by an acknowledgement is committed, payload included |
| Delivery.EffectivelyOnce | proto/metrics.proto:20-25 | however often it was sent, each committed batch was built by an agent, is committed once, and contributes exactly its payload to the log; the store is that of the log |
| Delivery.OnlyExhaustionFails | cpp/aggregator/impl/in_memory_time_series_store/in_memory_time_series_store.cpp:139-168 | whatever arrives in any run is well formed: the commit is a duplicate of itself, fails for lack of event IDs, or commits |
| Delivery.BuiltIsQueueable | cpp/client/impl/pending_batch_queue/pending_batch_queue.cpp:14-25 | a newly built batch is never invalid or a duplicate at its queue |
| Delivery.WrappedIdIsTakenForDuplicate | cpp/client/impl/batch_builder/batch_builder.cpp:53-58 | the bound on batches per session is sharp: 2^64 builds later a new batch is answered as a duplicate of the committed one |
| Recovery.ProduceNext | cpp/client/impl/batch_builder/batch_builder.cpp:17-43 | with room in the queue, acceptable metrics join it as one batch behind everything else, and nothing is dropped |
| Recovery.SendNext | cpp/client/impl/pending_batch_queue/pending_batch_queue.cpp:48-61 | a send puts exactly the oldest pending batch on the network and takes it off the pending list |
| Recovery.DeliverSent | proto/metrics.proto:36-40 | a delivered batch is committed, new or repeated, and acknowledged, while event IDs last |
| Recovery.ConfirmQueued | cpp/client/impl/pending_batch_queue/pending_batch_queue.cpp:63-78 | an acknowledgement that arrives removes its batch from any position of the queue; that batch is committed, and the others stay |
| Recovery.Reconnect | cpp/client/impl/pending_batch_queue/pending_batch_queue.cpp:80-86 | after a disconnect everything queued is pending again |
| Recovery.RetryCompletes | cpp/client/impl/pending_batch_queue/pending_batch_queue.cpp:80-86 | reconnect, resend, delivery and acknowledgement commit the oldest queued batch if it was not, and remove it and nothing else |
| Recovery.QueueDrains | cpp/client/impl/pending_batch_queue/pending_batch_queue.cpp:80-86 | from any state the invariant allows there are steps after which an agent's queue is empty, all it held is committed and nothing more was dropped |
| Recovery.EveryRunCanDrain | cpp/client/impl/pending_batch_queue/pending_batch_queue.cpp:80-86 | so every run can be continued to that point while event IDs last |
| ProcMetrics.ReadFields | cpp/client/impl/proc_metric_collector/proc_metric_collector.cpp:152-157 | at most eight leading numbers of the CPU row |
| ProcMetrics.SumFields | cpp/client/impl/proc_metric_collector/proc_metric_collector.cpp:165-175 | the guarded sum is exact, and refused exactly when it does not fit in 64 bits |
| ProcMetrics.ParseCpuCounters | cpp/client/impl/proc_metric_collector/proc_metric_collector.cpp:139-185 | total and idle counters, or the malformed-source error |
| ProcMetrics.ParseMemoryMetrics | cpp/client/impl/proc_metric_collector/proc_metric_collector.cpp:187-251 | the line loop and byte arithmetic, none of it wrapping, give the three memory samples or the error |
| ProcMetrics.ProcMetricCollector.constructor | cpp/client/impl/proc_metric_collector/proc_metric_collector.cpp:46-53 | there is no baseline at first |
| ProcMetrics.ProcMetricCollector.Collect | cpp/client/impl/proc_metric_collector/proc_metric_collector.cpp:55-122 | answer and new baseline of a call; no subtraction wraps |
| CollectorAnswers.CpuRowAnswer | cpp/client/impl/proc_metric_collector/proc_metric_collector.cpp:139-185 | from the numbers of the row: accepted exactly for the aggregate row with at least four numbers and no overflow; total is the sum of at most eight, idle the fourth plus the fifth, or plus what a failed fifth extraction left |
| CollectorAnswers.MemoryAnswer | cpp/client/impl/proc_metric_collector/proc_metric_collector.cpp:187-251 | from the lines: accepted exactly when no relevant line is bad and the last total and available are there, positive, ordered and fit; the three samples by name, value, time and empty tags |
| CollectorAnswers.CollectAnswer | cpp/client/impl/proc_metric_collector/proc_metric_collector.cpp:55-122 | each answer of a call and the baseline after it: unreadable or malformed sources, first call, implausible counters, success with the CPU percentage first |
| CollectorModel.IdleWithinTotalIff | cpp/client/impl/proc_metric_collector/proc_metric_collector.cpp:152-184 | parsed idle is within parsed total, except exactly when an oversized fifth number was left in the I/O wait slot and the four numbers read add up to less than the maximum |
| CollectorModel.IdleCanExceedTotal | cpp/client/impl/proc_metric_collector/proc_metric_collector.cpp:152-184 | such a row: total 1, idle the 64-bit maximum, accepted |
| CollectorModel.MemoryMeaning | cpp/client/impl/proc_metric_collector/proc_metric_collector.cpp:216-249 | used and available bytes add up to the total, which fits in 64 bits; the percentage lies in [0, 100] and is the used share |
| CollectorModel.CpuPercentMeaning | cpp/client/impl/proc_metric_collector/proc_metric_collector.cpp:102-114 | the percentage lies in [0, 100] and times elapsed time is a hundred times active time |
| CollectorModel.BaselineIsLastParsed | cpp/client/impl/proc_metric_collector/proc_metric_collector.cpp:86-94 | in any run the baseline is the counters of the last call whose sources were both read and parsed, and absent if there was none |
| CollectorModel.PercentagesTelescope | cpp/client/impl/proc_metric_collector/proc_metric_collector.cpp:92-121 | over an unbroken run the time-weighted percentages add up to a hundred times the net active time |
| CollectorModel.WeightedMeanIsOverall | cpp/client/impl/proc_metric_collector/proc_metric_collector.cpp:92-121 | their weighted mean is the percentage of the whole period |

## Left out

- gRPC transport, protobuf serialization and the generated Python stubs: messages are plain datatypes.
- Mutexes, shared locks, atomics and threads: every public method is one atomic step.
- Floating point: values, averages and percentages are reals, and a double is a real or not finite, which decides acceptance; rounding, NaN and overflow of sums are not modelled.
- In-place sharing: deques are sequences that methods reassign, so references and iterators into them do not appear; the C++ ranges algorithms are binary searches or functions with the contracts of the standard, and the sort by event ID is a function on sequences.
- Liveness: `Recovery` proves that draining is always possible, not that a particular scheduler does it.
- Reading `/proc` and splitting it into tokens: the collector gets the numeric extractions of the CPU row (a value, too large, or not a number) and key, value and unit of each memory line; a failed fifth CPU extraction leaves the maximum or zero behind, as the stream library does.
- Choice of the session nonce: builders get it as an argument, and the protocol assumes distinct (client, nonce) pairs.
- Wrap of the batch sequence counter: the protocol theorems hold while no agent has built more than 2^64 batches; `BuilderModel.IdsCollideIff` and `Delivery.WrappedIdIsTakenForDuplicate` say what happens beyond.
- Rolling averages in event messages: the store does not fill them.
- Encoding after decoding a token: not intended to give the token back, since leading zeros decode.
- Error context, operation names and retryable flags: errors are reduced to their code.
- The `dropped_batches` accessor: the counter is part of the queue state.
- Locale of number formatting: the classic one is assumed.
- `agent_config`, `SyntheticMetricCollector`, `collector_smoke`, scripts and build files: flag checks, a closed formula and tooling, which hold no state and take no part in the protocol.
