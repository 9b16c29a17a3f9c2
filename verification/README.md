# Verified model of the R&D knowledge map

This project models the parts of the knowledge map whose correctness is not visible from one body,
and proves what the rest of the system relies on. Each module follows one component.

| module | component |
|---|---|
| `Consensus` | intervals, weighted medians, overlap index and verdict of the consensus engine |
| `EmbedCache` | the least-recently-used cache in front of the embedder |
| `Outbox`, `Redelivery`, `Relay`, `Queue` | transactional outbox and relays as a transition system and the drain that runs it; events accepted twice; the relay's loop; its queue |
| `Bus` | message ids, redelivery and dead letters of the event bus |
| `SseWire` | the event stream between gateway and browser: writer, framing, incremental parser |
| `ChunkText`, `DocIR`, `NumCore` | the overlapping chunker, the paragraph locator, the prioritised span allocator |
| `AnswerService`, `CanonicalPlan`, `Interleave`, `EvidencePack` | answering, its cache key, the chunk merge, and the references inside an evidence pack |
| `QueryFilter` | from question and explicit filters to the condition of the fact query |
| `GraphMerge`, `CatalogCommit` | merging catalog entities, committing an extraction |
| `Basics`, `Text`, `Permutations`, `Dedupe` | shared vocabulary; stripping and joining; sums, filters, maps and sorts under reordering; order-preserving deduplication |

`dafny verify dfyconfig.toml` checks everything.

## Modelling choices

- Floats are reals, except in `CanonicalPlan`, where a number is known by its bits and its printed
  form is a parameter with the properties of the shortest decimal printer.
- Ids are natural numbers. Where the program draws a fresh UUID, the model takes the next number.
- Hash functions, JSON decoding, lower-casing, regular-expression matches, the white-space test of
  Python's `strip`, the exponential, and the answers of search, planner, synthesizer and embedder
  are parameters. Hashes are injective where a result needs it, and the result says so.
- SQL statements are functions on tables given as maps and sets. Of the schema, unique keys, foreign
  keys and the generated range of a fact are checked, and row-level security where a transaction runs
  without the highest level; columns of other types are taken to hold valid values. A transaction that
  fails changes nothing.
- Code that updates objects, rows or slices is a class or a method with loops, proved against a
  specification function; the theorems are about that function. Sorting is "some ordered
  permutation" where the program's sort is unstable, and a stable sort where it is stable.
- The outbox is a transition system, because several relays and crashes interleave. `Outbox.Store`
  is the sequential code of one drain, proved to be a run of that system. `Relay` iterates it, with
  every failure of a tick as a parameter.

## What the proofs found

Behaviour that a reader might not expect, with the exact condition under which it occurs; only for
cache keys the condition is sufficient, with a collision to show that it cannot be dropped:

- Merging an entity into itself deletes every edge that names it (`GraphMerge.SelfMergeDeletes`,
  `GraphMerge.RewriteIsSubstitutionIff`); a merge is refused when the entities share an alias or two
  facts in sight collide (`GraphMerge.Catalog.MergeEntities`). A merge runs without raising its access
  level, so facts of confidential and restricted documents are hidden from it and keep naming the merged
  entity (`GraphMerge.ConfidentialFactsKeepName`, `GraphMerge.SeesAllIff`), as do the columns a merge
  does not touch (`GraphMerge.StillNamedIff`). A later extraction attaches facts to it when it drafts an
  entity with the same slug (`CatalogCommit.MergedEntityReturnsIff`).
- The events of an extraction commit are written before slug conflicts are resolved. Their entity
  ids, cluster keys and fact ids match what is stored exactly when no new entity met a taken slug, no
  fact has an end whose slug was taken, and no fact was skipped
  (`CatalogCommit.AnnouncedIdsExistIff`, `CatalogCommit.AnnouncedClustersExistIff`,
  `CatalogCommit.AnnouncedFactsExistIff`).
- A commit to an existing document fails exactly when a fact has reversed SI bounds, or a new fact names
  a chunk or a unit that is not stored (`CatalogCommit.Store.Commit`). Extracting a document version
  again keeps the old chunk rows, so a new fact on such a chunk fails the whole commit
  (`CatalogCommit.NewFactOnOldChunkFails`, `CatalogCommit.NewFactOnNewChunkSucceedsIff`). The
  migrations leave the unit table empty, and until it is filled every new fact with a unit fails
  (`CatalogCommit.EmptyUnitTableFails`).
- A candidate lands on the last chunk that carries the name it gives; every chunk can be reached
  exactly when no two share a name. Chunks and candidates without a name all share the empty one
  (`CatalogCommit.FactLandsIff`, `CatalogCommit.ChunksAddressableIff`,
  `CatalogCommit.UnnamedChunksCollapse`).
- A filter entry asks what it means exactly when its operator is `range`, `pm`, `lte`, `gte` or `eq`.
  For any other, among them `lt`, `gt`, `to`, `from` and `approx`, a bound is demanded and then forgotten
  (`QueryFilter.FilterAsksIff`); nor does an entry with an unknown unit reach the query
  (`QueryFilter.FilterCountsIff`).
- A question that names its bounds in falling order makes a range that the database cannot build
  (`QueryFilter.EvaluatesIff`, `QueryFilter.FallingBoundsFail`).
- An outbox row that the broker would acknowledge again and again is never published exactly when a
  batch of older rows is refused for good (`Relay.EventuallyPublishedIff`), or a row that does not decode
  is claimed before it is reached (`Queue.PublishedIff`, `Queue.ServedIff`, `Relay.BadRowBlocks`).
- Without faults no event is delivered twice (`Redelivery.FaultFreeIsAtMostOnce`). A fault makes a
  duplicate possible exactly when it leaves an accepted event pending and unheld
  (`Redelivery.RepeatsIff`).
- A message can end with neither acknowledgement nor dead letter (`Bus.Delivery.Consume`), leave several
  dead letters (`Bus.SeveralLettersIff`), or have one and be acknowledged (`Bus.AckedWithLetterIff`).
- A summary that starts with white space loses it on the way to the client
  (`AnswerService.DeltasReassemble`).
- Positions of chunks and facts are positions in the full text exactly when the text does not start
  with white space, and as long as no number in scientific notation comes before
  (`ChunkText.OffsetsAgreeIff`, `NumCore.OffsetsAgreeIff`).
- Cache keys of plans can collide when fields contain separators (`CanonicalPlan.SeparatorsCollide`).
- The unit of a consensus depends on the order of facts exactly when units differ
  (`Consensus.UnitFixedIff`).

## Model

| member | source | states |
|---|---|---|
| `Consensus.ToInterval` | internal/epistemic/app/consensus.go:51-64 | a fact's interval is in order and contains both reported ends; it is exactly them unless it is a point, which is padded to 4% of its magnitude, centred; its weight is positive |
| `Consensus.WeightIsProportional` | internal/epistemic/app/consensus.go:60-63 | where confidence is positive, weight is proportional to confidence, reliability and freshness, and 1 where each is |
| `Consensus.WeightGrows` | internal/epistemic/app/consensus.go:60-63 | weight grows strictly with each of the three |
| `Consensus.NoConfidenceIsFloored` | internal/epistemic/app/consensus.go:61-63 | a fact without confidence keeps a millionth |
| `Consensus.ReliabilityRanks` | internal/epistemic/app/consensus.go:34-37 | the order of document types by reliability, with unlisted ones between patents and the web |
| `Consensus.FreshnessDecays` | internal/epistemic/app/consensus.go:181-186 | a document of this year is fully fresh, each year takes the same share away, newer is fresher, an unknown year counts half |
| `Consensus.WeightedMedian` | internal/epistemic/app/consensus.go:133-154 | whatever order the sort gives to ties, the result is the least sample value at or below which half of the weight lies, and the return after the loop is never reached |
| `Consensus.FirstToHalf` | internal/epistemic/app/consensus.go:145-153 | the running sum over sorted samples stops at the lower median |
| `Consensus.SameMedian` | internal/epistemic/app/consensus.go:133-154 | reordering samples changes no total, no cumulative weight and no lower median |
| `Consensus.MedianUnique` | internal/epistemic/app/consensus.go:133-154 | a sample list has at most one lower median |
| `Consensus.MedianMinimisesDeviation` | internal/epistemic/app/consensus.go:133-154 | the lower median minimises the weighted sum of absolute deviations over all reals |
| `Consensus.MajorityBracketsMedian` | internal/epistemic/app/consensus.go:133-154 | any selection holding a strict weight majority has members on both sides of the median |
| `Consensus.MedianMonotone` | internal/epistemic/app/consensus.go:133-154 | raising values with weights unchanged never lowers the median |
| `Consensus.OverlapIndex` | internal/epistemic/app/consensus.go:95-112 | the loop finds the four extremes of the intervals and returns common length over hull length, 1 for a point hull |
| `Consensus.OverlapIsProportion` | internal/epistemic/app/consensus.go:95-112 | the index lies in [0, 1] |
| `Consensus.OverlapIsShare` | internal/epistemic/app/consensus.go:95-112 | the index is the share of the hull that all intervals have in common: no common part exceeds it, and it is attained |
| `Consensus.SameValueOverlaps` | internal/epistemic/app/consensus.go:103-106 | sources that report one single value overlap fully |
| `Consensus.TouchingMeets` | internal/epistemic/app/consensus.go:121-126 | touching the agreed range means having a value in common with it |
| `Consensus.VerdictFor` | internal/epistemic/app/consensus.go:114-131 | each verdict exactly when its condition holds: document count, index threshold, three fifths touching |
| `Consensus.Scan` | internal/epistemic/app/consensus.go:42-70 | the first loop gathers exactly the intervals, documents, unit and statistics of the facts with a range |
| `Consensus.ComputeConsensus` | internal/epistemic/app/consensus.go:42-87 | the result is the consensus of the facts: medians, index, clamped confidence, verdict, counts and years; the unit is the first non-empty one |
| `Consensus.RawMediansOrdered` | internal/epistemic/app/consensus.go:77-81 | the raw lower median never exceeds the upper one, so the swap is dead |
| `Consensus.OrderIndependent` | internal/epistemic/app/consensus.go:42-87 | every permutation of the facts gives the same result except possibly the unit |
| `Consensus.UnitFixedIff` | internal/epistemic/app/consensus.go:42-87 | the unit of the result is the same for every permutation of all facts exactly when no two facts with a range carry different non-empty units |
| `Consensus.AgreementSharesCore` | internal/epistemic/app/consensus.go:114-131 | a verdict of consensus means a common part of all intervals inside the agreed range, every interval touching that range, and the majority test passing too |
| `Consensus.MajorityConfinesAgreement` | internal/epistemic/app/consensus.go:74-87 | sources with a strict weight majority inside [a, b] confine the agreed range to [a, b] |
| `Consensus.DominantSetsRange` | internal/epistemic/app/consensus.go:74-87 | a source that weighs more than all others together sets the agreed range |
| `Consensus.MoreConfidentSetsRange` | internal/epistemic/app/consensus.go:42-87 | of two sources alike in type and year, the more confident one sets the agreed range |
| `Consensus.ResultSound` | internal/epistemic/app/consensus.go:42-87 | every result with a range has ordered bounds, an index in [0, 1], a confidence in [0.3, 0.95], and a shared core when the verdict is consensus |
| `EmbedCache.TouchHit` | services/embed/src/embed/embedder.py:33-35 | touching a key still cached moves it to the end of the last-`capacity` order of the log |
| `EmbedCache.TouchMiss` | services/embed/src/embed/embedder.py:40-43 | inserting a missing key and dropping the oldest over capacity gives the last-`capacity` order of the longer log |
| `EmbedCache.ByLastUseOrdered` | services/embed/src/embed/embedder.py:21-44 | the recency order holds exactly the keys of the touch log, by last use |
| `EmbedCache.EvictKeepsNewest` | services/embed/src/embed/embedder.py:42-43 | the eviction loop keeps exactly the newest keys that fit, with their vectors |
| `EmbedCache.CachingEmbedder.constructor` | services/embed/src/embed/embedder.py:16-19 | an empty cache whose capacity is never negative |
| `EmbedCache.CachingEmbedder.MoveToEnd` | services/embed/src/embed/embedder.py:34 | the touched key becomes the newest; key order stays the last distinct keys of the log |
| `EmbedCache.CachingEmbedder.Insert` | services/embed/src/embed/embedder.py:40-43 | store, move to the end, evict: the order is again the last `capacity` distinct keys, and no stored vector becomes wrong |
| `EmbedCache.CachingEmbedder.ScanTexts` | services/embed/src/embed/embedder.py:24-35 | the first pass logs exactly the hits in scan order and lists exactly the texts not held |
| `EmbedCache.CachingEmbedder.FillMisses` | services/embed/src/embed/embedder.py:36-43 | answers are paired with misses in order, logged, stored and put in their slots |
| `EmbedCache.CachingEmbedder.Embed` | services/embed/src/embed/embedder.py:21-44 | for every capacity: the result is position by position what the inner embedder gives, the key order is the last `capacity` distinct keys of old log, hits, misses, and the cache fits |
| `EmbedCache.CachingEmbedder.Fits` | services/embed/src/embed/embedder.py:42-43 | between calls the cache never exceeds its capacity |
| `Outbox.StepKeepsInv` | internal/platform/outbox/outbox.go:75-146 | every step of writers, relays, broker and crashes keeps the safety invariant |
| `Outbox.RunKeepsInv` | internal/platform/outbox/outbox.go:75-146 | the invariant holds in every reachable state |
| `Outbox.ReachableIsSafe` | internal/platform/outbox/outbox.go:34-146 | in every reachable state each committed row is pending or was published, a row marked published was published, nothing uncommitted was, and no two relays hold one row |
| `Outbox.CommitLowersPending` | internal/platform/outbox/outbox.go:121-128 | a committed drain removes exactly the acknowledged rows from the pending ones |
| `Outbox.RowsOnlyGrow` | internal/platform/outbox/outbox.go:86 | no run drops a row, un-publishes one or forgets a published message |
| `Outbox.FailReleases` | internal/platform/outbox/outbox.go:104-105 | a failed drain leaves the rows alone and releases all it had claimed |
| `Redelivery.FaultFreeIsAtMostOnce` | internal/platform/outbox/outbox.go:97-128 | in runs without failed drains and lost acknowledgements the broker never accepts an event twice |
| `Redelivery.RepeatsIff` | internal/platform/outbox/outbox.go:97-128 | from any safe state a fault-free continuation can accept an event again exactly when some event accepted before is pending and no drain holds it as sent |
| `Redelivery.FaultsDuplicate` | internal/platform/outbox/outbox.go:97-128 | such a state is reachable: a run from the empty outbox in which an event is accepted twice |
| `Outbox.ClaimSize` | internal/platform/outbox/outbox.go:75-80 | a claim takes as many free rows as the batch allows |
| `Outbox.ClaimExists` | internal/platform/outbox/outbox.go:75-80 | oldest-first claiming of unlocked pending rows always has an answer |
| `Outbox.Store.Offer` | internal/platform/outbox/outbox.go:113-119 | the publishing loop skips failures and collects acknowledged rows; it is a run of the system |
| `Outbox.Store.Finish` | internal/platform/outbox/outbox.go:120-127 | marking and committing happen together or not at all, as seen from the rows |
| `Outbox.Store.Drain` | internal/platform/outbox/outbox.go:97-128 | one drain is a run of the system; its count is the number of acknowledged publishes and the drop in pending rows; rows change exactly when all decode, the marking works and the commit takes effect, even unconfirmed |
| `Outbox.Store.Deliver` | internal/platform/outbox/outbox.go:112-127 | the part after the claim: publish, mark, commit, with its effect on rows and broker |
| `Relay.Relay.constructor` | internal/platform/outbox/relay.go:22-41 | a batch that is not positive becomes the default |
| `Relay.Relay.Tick` | internal/platform/outbox/relay.go:79-94 | one tick changes the rows and the broker as one drain does, and a failed drain is passed over |
| `Relay.Relay.Run` | internal/platform/outbox/relay.go:52-66 | the loop iterates ticks; the invariant holds throughout |
| `Relay.SmoothDelivers` | internal/platform/outbox/relay.go:52-94 | when nothing fails, what leaves the backlog is exactly what the broker accepted, each event once |
| `Relay.SmoothShrinks` | internal/platform/outbox/relay.go:52-94 | when nothing fails, one batch a tick leaves the backlog until it is empty |
| `Relay.BacklogDeliveredOnce` | internal/platform/outbox/relay.go:52-94 | with enough ticks the broker gains every pending event exactly once |
| `Queue.ClaimIsFront` | internal/platform/outbox/outbox.go:75-80 | with distinct creation times the claim is the front of the queue |
| `Queue.QueueExists` | internal/platform/outbox/outbox.go:75-80 | and there is such a queue |
| `Queue.QueueAfter` | internal/platform/outbox/relay.go:52-94 | the queue after any ticks, while each row fares the same in every tick: of the rows worked off the stuck ones are left, with failing marks, commits and rows that do not decode |
| `Queue.PublishedIff` | internal/platform/outbox/relay.go:52-94 | an acknowledgeable row is published after some ticks exactly when the batches of the effective ones have reached its place |
| `Queue.ServedIff` | internal/platform/outbox/relay.go:52-94 | batches reach a place exactly when some batch boundary lies behind it but not behind the first row that does not decode |
| `Queue.PublishedInTimeIff` | internal/platform/outbox/relay.go:52-94 | while each row fares the same in every tick, and all rows decode: an acknowledgeable row is published once as many ticks took effect as its place in the queue says, exactly when fewer than a batch of older rows are stuck |
| `Relay.LiveRowLeaves` | internal/platform/outbox/relay.go:52-94 | for a broker that changes from tick to tick: a row acknowledged again and again leaves the queue after any tick, as long as fewer than a batch of older rows are not |
| `Relay.EventuallyPublishedIff` | internal/platform/outbox/relay.go:52-94 | where all rows decode and each older row is acknowledged again and again or never, such a row is ever published exactly when fewer than a batch of older rows are refused for good |
| `Relay.StarvedBehindRefused` | internal/platform/outbox/relay.go:52-94 | behind a batch of rows refused for good nothing is ever claimed or published, whatever else happens |
| `Relay.BadRowBlocks` | internal/platform/outbox/outbox.go:107-110 | a row that does not decode is never published and blocks every younger row |
| `Relay.BadFrontBlocksAll` | internal/platform/outbox/outbox.go:107-110 | among the oldest batch it blocks everything |
| `Relay.OneRefusedRowStarves` | internal/platform/outbox/relay.go:52-94 | a queue that fails: one refused row ahead, batches of one |
| `Relay.RefusedBatchBlocks` | internal/platform/outbox/relay.go:52-94 | whatever the creation times, a claim with nothing acknowledged leaves all rows as they are for good |
| `Bus.PublishHeaders` | internal/platform/nats/bus.go:115-131 | the event's own id is always the message id; other headers pass exactly when key and value are not empty |
| `Bus.Delivery.constructor` | internal/platform/nats/bus.go:74-77 | a limit that is not positive becomes the default |
| `Bus.Delivery.SendDeadLetter` | internal/platform/nats/bus.go:214-226 | one copy with reason and origin, none for a message already from the dead-letter stream or when it is not written |
| `Bus.LetterSays` | internal/platform/nats/bus.go:214-226 | the letter for an event: its own name below the dead-letter prefix, its origin, and why it was given up |
| `Bus.DeadLetterSubjects` | internal/platform/nats/bus.go:214-226 | different subjects have different dead-letter subjects, and each is recognised as one |
| `Bus.Delivery.Handle` | internal/platform/nats/bus.go:183-212 | which attempts leave the message waiting, acknowledge it or terminate it, and what goes to the dead-letter stream; a crash, or a report that does not reach the broker, may come before or after the letter |
| `Bus.Delivery.Consume` | internal/platform/nats/bus.go:148-212 | over all redeliveries: bounded, settled at the first attempt that is not retried, with the letters left on the way; and exactly when a message ends with neither acknowledgement nor dead letter |
| `Bus.UsedUpIff` | internal/platform/nats/bus.go:195-207 | no delivery settles the message exactly when the last got no answer, was refused without readable metadata or could not be reported, after retries only |
| `Bus.SeveralLettersIff` | internal/platform/nats/bus.go:183-226 | one message leaves several dead letters exactly when two attempts wrote one and the termination after the earlier never reached the broker |
| `Bus.AckedWithLetterIff` | internal/platform/nats/bus.go:183-226 | an acknowledged message has a dead letter exactly when an earlier attempt wrote one and its termination never reached the broker |
| `SseWire.FramesAppend` | ui/src/shared/api/ask-client.ts:117-126 | frames can be cut out piecemeal, carrying over the rest |
| `SseWire.ParseFrame` | ui/src/shared/api/ask-client.ts:288-324 | one frame means the last event name and the joined data lines, and nothing when either is missing, undecodable or of another kind |
| `SseWire.OnlyKnownKinds` | ui/src/shared/api/ask-client.ts:305-323 | the client sees five kinds of event and no others |
| `SseWire.DataLinesJoin` | ui/src/shared/api/ask-client.ts:291-303 | a payload spread over data lines is read as lines of one text |
| `SseWire.BoundaryIsFirst` | ui/src/shared/api/ask-client.ts:117-126 | a frame ends at the first blank line |
| `SseWire.CutFrames` | ui/src/shared/api/ask-client.ts:119-126 | the inner loop yields exactly the events of the complete frames and keeps the rest |
| `SseWire.ParseSSE` | ui/src/shared/api/ask-client.ts:97-131 | for every way of cutting the text into reads the events are those of the whole text, plus one error event after a timeout; an abort is reported |
| `SseWire.WriteStream` | internal/gateway/ports/http/sse.go:95-108 | the gateway writes one frame per forwarded message and one error frame on failure |
| `SseWire.StreamRoundTrip` | internal/gateway/ports/http/sse.go:129-151 | parsing what was written gives exactly the events meant, in order, with nothing left over |
| `SseWire.NothingLost` | ui/src/shared/api/ask-client.ts:288-324 | when payloads decode, every message becomes one event |
| `SseWire.FailureArrives` | internal/gateway/ports/http/sse.go:153-156 | after the events of the messages the client sees exactly one error event with the payload sent |
| `SseWire.EverythingArrives` | internal/gateway/ports/http/sse.go:95-156 | a whole response with readable payloads: one event for each message, in order, then the failure if there is one |
| `SseWire.OtherKindsSkipped` | internal/gateway/ports/http/sse.go:95-108 | messages of other kinds are not sent |
| `SseWire.CutYieldsPrefix` | ui/src/shared/api/ask-client.ts:97-131 | a stream cut at any point yields a prefix of the events |
| `SseWire.EndToEnd` | internal/gateway/ports/http/sse.go:95-156 | writer, network and parser together: any chunking of the response gives exactly the events meant, a prefix when it breaks |
| `ChunkText.CutAtLastBoundary` | services/extract/src/extract/main.py:78-83 | a full window is cut at its last boundary, or used whole when none lies far enough in |
| `ChunkText.BoundaryMeans` | services/extract/src/extract/main.py:78-83 | a boundary is a line break, or a full stop with a blank after it |
| `ChunkText.EndNeverRetreats` | services/extract/src/extract/main.py:78-101 | the cut of a window is still visible in the next, so ends never move back |
| `ChunkText.WalkIsChain` | services/extract/src/extract/main.py:77-101 | ranges advance strictly, ends never decrease, no gap, overlap at most 500, length at most 4000 |
| `ChunkText.RangesAreChain` | services/extract/src/extract/main.py:77-101 | for every text the windows form such a chain, from its first character to its last |
| `ChunkText.Chunks` | services/extract/src/extract/main.py:74-102 | the loop terminates, visits exactly these ranges and emits exactly the ones that are not blank |
| `ChunkText.ChunkText` | services/extract/src/extract/main.py:69-102 | the whole function, the empty text included |
| `ChunkText.EmittedChunks` | services/extract/src/extract/main.py:84-98 | ordinals are consecutive and every chunk is the stripped text of its range |
| `ChunkText.EmittedOrdered` | services/extract/src/extract/main.py:77-102 | chunk starts strictly increase and ends never decrease |
| `ChunkText.EveryCharacterCovered` | services/extract/src/extract/main.py:69-102 | every character that is not white space lies in some chunk's range |
| `ChunkText.OffsetsShift` | services/extract/src/extract/main.py:70 | chunk positions count from the first character that is not white space |
| `ChunkText.OffsetsAgreeIff` | services/extract/src/extract/main.py:70 | they are positions in the full text exactly when it does not start with white space, or is blank |
| `DocIR.PiecesTile` | services/parse/src/parse/docir.py:165-168 | the stripped pieces lie in order and everything around them is white space |
| `DocIR.FindsItsPlace` | services/parse/src/parse/docir.py:137-141 | searching a paragraph from the end of the previous one finds it where it was cut from |
| `DocIR.Locate` | services/parse/src/parse/docir.py:134-152 | every block has its true position; the branch for a failed search is dead |
| `DocIR.BuildBlocks` | services/parse/src/parse/docir.py:133-162 | block texts and positions agree with the text, and blocks are the stripped pieces between separators |
| `DocIR.TogetherIff` | services/parse/src/parse/docir.py:165-168 | two characters that are not white space lie in one block exactly when no separator lies between them |
| `DocIR.OutsideIsBlank` | services/parse/src/parse/docir.py:133-162 | a character outside all blocks is white space |
| `DocIR.BlocksInOrder` | services/parse/src/parse/docir.py:133-162 | blocks are disjoint and in order |
| `DocIR.NoParagraphsMeansBlank` | services/parse/src/parse/docir.py:168 | splitting leaves no paragraph exactly when the text is blank, so the fallback is dead |
| `NumCore.SiOrderedIff` | services/extract/src/extract/numcore.py:160-163 | conversion keeps bounds in order exactly when the factor is not negative or they coincide |
| `NumCore.SiIsLinear` | services/extract/src/extract/numcore.py:160-163 | conversion is the line through the offset with the factor as slope |
| `NumCore.PlausibleIff` | services/extract/src/extract/numcore.py:211-224 | plausible means inside the range, or off by no more than the tolerance |
| `NumCore.FactYieldedIff` | services/extract/src/extract/numcore.py:241-247 | an accepted candidate yields a fact exactly when its unit is known and neither bound is huge |
| `NumCore.FactSays` | services/extract/src/extract/numcore.py:248-276 | operator, place, unit and parameter are the candidate's; SI bounds are the bounds converted; the mark is set exactly when one is implausible |
| `NumCore.OperatorFits` | services/extract/src/extract/numcore.py:278-301 | the operator says which bounds there are, and strict ones stand for strict comparisons |
| `NumCore.OfferedPlace` | services/extract/src/extract/numcore.py:278-301 | every match of every pattern is offered, pattern by pattern, in order |
| `NumCore.OfferedOnly` | services/extract/src/extract/numcore.py:278-301 | and nothing else is |
| `NumCore.FactBounds` | services/extract/src/extract/numcore.py:241-252 | bounds are the candidate's in order, SI bounds too for positive factors, confidence drops exactly when implausible |
| `NumCore.FactCoversMeaning` | services/extract/src/extract/numcore.py:241-301 | the interval of a fact holds exactly the values its match speaks of, whatever the pattern and the order of its numbers |
| `NumCore.OffsetsAgreeIff` | services/extract/src/extract/numcore.py:118-133 | positions of facts agree with the full text exactly as long as no number in scientific notation comes before |
| `NumCore.ExtractFacts` | services/extract/src/extract/numcore.py:227-304 | accepted spans are the greedy selection in pattern order, and the facts are those of accepted spans sorted by position |
| `NumCore.SpansDisjoint` | services/extract/src/extract/numcore.py:232-240 | accepted spans are pairwise disjoint |
| `NumCore.SpansMaximal` | services/extract/src/extract/numcore.py:232-240 | a candidate is left out only for its context or because it overlaps an earlier accepted one |
| `NumCore.SpansRespectContext` | services/extract/src/extract/numcore.py:236-239 | no accepted span has a stop word before it or a table row around it |
| `NumCore.LeftOutOnlyForOverlap` | services/extract/src/extract/numcore.py:230-240 | the only other reason to leave a candidate out is an earlier accepted span that overlaps it |
| `NumCore.DisjointIff` | services/extract/src/extract/numcore.py:231-234 | spans are disjoint exactly when they have no position in common |
| `NumCore.GreedyUnique` | services/extract/src/extract/numcore.py:232-240 | no other selection satisfies the acceptance rule |
| `NumCore.FactSource` | services/extract/src/extract/numcore.py:241-276 | every fact comes from an accepted candidate, in order |
| `NumCore.AcceptedYieldsFact` | services/extract/src/extract/numcore.py:241-276 | and every accepted candidate that yields a fact has it in the result |
| `NumCore.ResultDisjoint` | services/extract/src/extract/numcore.py:303-304 | returned facts follow one another without overlap, each with ordered bounds |
| `GraphMerge.PassKeepsUnique` | internal/catalog/adapters/pg/repository.go:287-296 | each guarded update keeps the edge key unique |
| `GraphMerge.RewriteRow` | internal/catalog/adapters/pg/repository.go:287-300 | row by row, exactly the surviving rows remain, under their substituted keys |
| `GraphMerge.RewriteIsSubstitution` | internal/catalog/adapters/pg/repository.go:287-300 | for distinct entities the edge keys become exactly the substituted ones minus target loops, unique, none naming the merged entity |
| `GraphMerge.SelfMergeDeletes` | internal/catalog/adapters/pg/repository.go:298-300 | merging an entity into itself deletes every edge naming it |
| `GraphMerge.RewriteIsSubstitutionIff` | internal/catalog/adapters/pg/repository.go:287-300 | the rewrite is the substitution exactly when the entities differ or the entity has only loops |
| `GraphMerge.Catalog.MergeEntities` | internal/catalog/adapters/pg/repository.go:268-307 | the merge succeeds exactly when the target exists, no alias is shared and no two facts in sight collide; then no alias and no fact is lost, and where the merged entity stood in aliases, facts in sight and edges the target stands; all else stays; otherwise nothing changes; references and keys hold |
| `GraphMerge.SubstAliasesMoves` | internal/catalog/adapters/pg/repository.go:278-280 | every alias of another entity stays, those of the merged one are there under the target, no other is; their number is unchanged exactly when no alias is shared |
| `GraphMerge.RewriteMoves` | internal/catalog/adapters/pg/repository.go:287-300 | an edge is there afterwards exactly when it is no loop on the target and some edge becomes it |
| `GraphMerge.StillNamedIff` | internal/catalog/adapters/pg/repository.go:268-300 | after a merge of distinct entities the merged one is still named exactly when a hidden fact or a column the merge does not touch (parameter definitions, property ids, claims, expert topics) named it, or an earlier merge had led to it |
| `GraphMerge.UniqueIffNoClash` | db/migrations/000004_facts_natural_key.up.sql:1-3 | hidden facts never refuse a merge, although the unique index covers them |
| `GraphMerge.ConfidentialFactsKeepName` | db/migrations/000003_read_rls.up.sql:4-8 | a merge sets no access level, so it passes over every fact of a confidential or restricted document |
| `GraphMerge.SeesAllIff` | db/migrations/000001_init.up.sql:39-46 | only a transaction with the restricted level sees every fact |
| `GraphMerge.SeesIff` | db/migrations/000001_init.up.sql:39-46 | a named level sees what is ranked up to it, none at all counts as internal, any other as public |
| `CanonicalPlan.CanonicalKey` | internal/answer/app/service.go:546-564 | the printer as written computes the canonical string |
| `CanonicalPlan.AgreeingPlansShareKey` | internal/answer/app/service.go:546-564 | reordering slugs or constraints never changes the key |
| `CanonicalPlan.KeysEqualIff` | internal/answer/app/service.go:546-581 | plans whose fields avoid the separators share a key exactly when they agree on intent, geography, years and the multisets of slugs and constraints |
| `CanonicalPlan.ConstraintInjective` | internal/answer/app/service.go:550-553 | a printed constraint can be read back |
| `CanonicalPlan.YearsInjective` | internal/answer/app/service.go:555-559 | two numbers joined by a minus sign can be told apart |
| `CanonicalPlan.SeparatorsCollide` | internal/answer/app/service.go:546-564 | without the separator condition two plans that disagree can share a key |
| `CanonicalPlan.AccessSeparates` | internal/answer/app/service.go:541-544 | cache keys are equal exactly when canonical string and access level are |
| `AnswerService.WordsCover` | internal/answer/app/synth.go:400-411 | the word matches lose nothing but leading white space |
| `AnswerService.WordsAreMaximal` | internal/answer/app/synth.go:13 | each word is one run of text with the space after it, and only the last may lack that space |
| `AnswerService.LetterInFront` | internal/answer/app/synth.go:13 | a letter and a blank in front of a text make one more word |
| `AnswerService.ChunkDeltas` | internal/answer/app/synth.go:400-411 | the loop groups the words, eight at a time in `Ask` |
| `AnswerService.GroupsHold` | internal/answer/app/synth.go:405-410 | every delta holds the number of words asked for, except that the last may hold fewer |
| `AnswerService.DeltasReassemble` | internal/answer/app/synth.go:400-411 | the joined deltas equal the summary exactly when it does not start with white space or is all white space |
| `AnswerService.ContainsApprox` | internal/answer/app/guard.go:68-75 | true exactly when some allowed number is close enough |
| `AnswerService.ApproxEqualMeans` | internal/answer/app/numbers.go:44-50 | close means within one percent of the evidence; near zero, within a billionth |
| `AnswerService.RunGuard` | internal/answer/app/guard.go:13-26 | the loop counts checked numbers and violations |
| `AnswerService.NoViolationsIff` | internal/answer/app/guard.go:13-26 | zero violations exactly when every number that is not a year is backed by the evidence |
| `AnswerService.GuardCounts` | internal/answer/app/guard.go:13-26 | the guard counts the numbers that are not years, and those among them that nothing backs |
| `AnswerService.YearsAre` | internal/answer/app/numbers.go:37-42 | the whole numbers from 1900 to 2100 pass for years, and nothing else |
| `AnswerService.EmitDeltas` | internal/answer/app/service.go:492-499 | deltas go out in order until cancelled or refused |
| `AnswerService.Service.DegradedOrBacked` | internal/answer/app/service.go:479-490 | violations imply degraded; not degraded exactly when the synthesizer answered with backed numbers only; summary, methods and confidence are the extractive ones when degraded and the synthesizer's otherwise; the guard report is about that summary |
| `AnswerService.DeliversIff` | internal/answer/app/service.go:492-499 | everything is delivered exactly when the client takes every event and the request is not cancelled before a delta |
| `AnswerService.Service.Synthesise` | internal/answer/app/service.go:479-490 | the two-stage fallback computes that answer |
| `AnswerService.Service.Ask` | internal/answer/app/service.go:443-521 | the trace is a prefix of plan, evidence, deltas, done, complete exactly on success, and it stops at the first event that fails; only undegraded, fully backed answers enter the cache; a hit replays the stored story |
| `AnswerService.Service.AskFresh` | internal/answer/app/service.go:461-521 | the same for the part after a cache miss |
| `AnswerService.Service.Replay` | internal/answer/app/service.go:523-539 | a stored answer is told in the same order, completely exactly when everything is delivered |
| `AnswerService.Service.AskAgain` | internal/answer/app/service.go:443-539 | asking again repeats the first trace event by event whatever search and synthesis would now say |
| `Interleave.Merger.Add` | internal/answer/app/service.go:282-292 | a chunk is added unless missing, without id, seen or over the limit |
| `Interleave.Merger.Interleave` | internal/answer/app/service.go:293-301 | the loop builds the result specified, although it may stop early |
| `Interleave.InterleaveChunks` | internal/answer/app/service.go:279-302 | the result is the first `limit` chunks of the order-preserving deduplication by id of the round-robin merge |
| `Interleave.BestIsDistinct` | internal/answer/app/service.go:279-302 | ids are distinct, not empty and from the inputs; below the limit none is missing |
| `Interleave.RoundRobinPlaces` | internal/answer/app/service.go:293-301 | where each entry goes: the lists take turns until one ends |
| `Interleave.UsableIff` | internal/answer/app/service.go:282-292 | entries count when they are there and have an id |
| `Interleave.BothListsRepresented` | internal/answer/app/service.go:279-302 | the first half of the limit of each list always gets in |
| `Dedupe.FirstsKeys` | internal/answer/app/service.go:281-291 | deduplication keeps every key once |
| `Dedupe.FirstsKeepsFirst` | internal/answer/app/service.go:281-291 | of equal keys the first element is kept |
| `QueryFilter.ClauseAsks` | internal/answer/app/plan.go:306-338 | a clause with numbers becomes a constraint in the clause's unit that asks of a value exactly what the clause says |
| `QueryFilter.ClauseCountsIff` | internal/answer/app/plan.go:306-338 | it takes part in the query exactly when its unit is known |
| `QueryFilter.FirstParsedIsFirst` | internal/answer/app/plan.go:290-301 | the first clause with a number is taken |
| `QueryFilter.FirstRuleSupplies` | internal/answer/app/plan.go:284-304 | from the first rule for the parameter that has one |
| `QueryFilter.ToSiIsLinear` | internal/answer/app/plan.go:360-376 | conversion is a straight line, the same as on the extracting side for equal factor and offset |
| `QueryFilter.SpellingsAgree` | internal/answer/app/plan.go:346-358 | spellings of one unit are converted alike |
| `QueryFilter.RoundNumbers` | internal/answer/app/plan.go:346-358 | boiling water, a milligram in a litre, a megapascal, and units that are SI |
| `QueryFilter.FirstOf` | internal/answer/app/plan.go:290-301 | the inner loop finds the first clause that parses, unless the parameter was seen |
| `QueryFilter.ExtractConstraints` | internal/answer/app/plan.go:284-304 | the two loops compute the extracted constraints |
| `QueryFilter.ExtractedIs` | internal/answer/app/plan.go:284-304 | one constraint for exactly the parameters that some clause gives a number for, each converted |
| `QueryFilter.FilterUsableIff` | internal/answer/app/plan.go:103-153 | a filter entry is dropped exactly when it names no parameter or lacks a bound it needs |
| `QueryFilter.FilterCarriesBounds` | internal/answer/app/plan.go:118-150 | which bounds a usable entry carries on, with `value` standing in for a missing one |
| `QueryFilter.FilterCarriesNames` | internal/answer/app/plan.go:107-127 | its parameter and unit go on as they are |
| `QueryFilter.FilterCarriesOperator` | internal/answer/app/plan.go:112-133 | so does its operator, except that plus-minus becomes a range and none means equality |
| `QueryFilter.FilterAsksIff` | internal/answer/app/plan.go:128-152 | a usable entry asks of a value exactly what it means, if and only if its operator is range, pm, lte, gte or eq; with any other, approx and unknown ones included, it asks nothing |
| `QueryFilter.FilterCountsIff` | internal/answer/app/plan.go:360-376 | a usable entry takes part in the query exactly when its operator is one of these and its unit is known |
| `QueryFilter.QueryUnitsSound` | internal/answer/app/plan.go:346-358 | the unit table meets what the theorems assume of it |
| `QueryFilter.ApplyParams` | internal/answer/app/plan.go:67-84 | the index map and the two branches compute the override |
| `QueryFilter.OverriddenLookup` | internal/answer/app/plan.go:67-84 | the result holds the last usable filter for a parameter, or else what was there |
| `QueryFilter.LastFilterIs` | internal/answer/app/plan.go:67-84 | that filter is usable and for the parameter, and no later one is |
| `QueryFilter.NoFilterFound` | internal/answer/app/plan.go:67-84 | none is found when there is none |
| `QueryFilter.OverriddenShape` | internal/answer/app/plan.go:67-84 | keys stay unique, constraints keep their places, SI fields stay filled in |
| `QueryFilter.ApplyFilters` | internal/answer/app/plan.go:57-101 | geography, constraints and years are overridden, each only when given |
| `QueryFilter.BuildFactFilter` | internal/search/app/service.go:325-351 | the parallel slices list the closed ranges of exactly the filtering constraints |
| `QueryFilter.MeetsIff` | internal/search/app/service.go:325-351 | an interval meets a constraint exactly when some value inside it satisfies the constraint |
| `QueryFilter.FilterKeepsMeaning` | internal/search/app/service.go:325-351 | a fact's SI interval meets the filter range exactly when its interval meets the raw constraint, up to the stand-ins for infinity |
| `QueryFilter.EvaluatesIff` | internal/search/adapters/pg/repo.go:145-148 | every range can be built exactly when no two-sided constraint is reversed and one-sided ones stay within the stand-ins |
| `QueryFilter.FallingBoundsFail` | internal/answer/app/plan.go:317-320 | the failing question: 80 to 60 in a known unit |
| `QueryFilter.PassesIff` | internal/search/adapters/pg/repo.go:138-149 | a fact passes exactly when its geography fits and it overlaps the range of every filtering constraint on its parameter; other operators never exclude it |
| `QueryFilter.QueryKeepsMeaning` | internal/search/app/service.go:325-351 | end to end: a fact gets through the query exactly when its geography fits and some value of its interval, in the unit of the question, satisfies the constraint |
| `EvidencePack.RankFacts` | internal/search/app/service.go:234-248 | scores are written and the slice is sorted stably, best first |
| `EvidencePack.TopIsBest` | internal/search/app/service.go:156-159 | the facts kept are as many as allowed and none left out scores higher |
| `EvidencePack.RankedAreScored` | internal/search/app/service.go:234-244 | the ranked facts are the facts given, each with its score |
| `EvidencePack.PackHoldsBest` | internal/search/app/service.go:139-204 | a pack shows given facts with their scores, best first, and misses none that scores higher than one shown |
| `EvidencePack.TiesKeepOrder` | internal/search/app/service.go:245-247 | facts of equal score keep their order |
| `EvidencePack.AssignRefs` | internal/search/app/service.go:250-258 | facts are numbered from F1 and the map records the number of every id |
| `EvidencePack.RefsNameIds` | internal/search/app/service.go:250-258 | an id has a reference exactly when a fact has that id, and the reference is such a fact's place |
| `EvidencePack.RemapContradictions` | internal/search/app/service.go:260-273 | the loop re-addresses contradictions |
| `EvidencePack.RemappedIs` | internal/search/app/service.go:260-273 | exactly those with both facts in the pack are kept, in order, each reference naming the fact meant |
| `EvidencePack.BuildPack` | internal/search/app/service.go:139-204 | ranking, cutting, numbering and re-addressing together |
| `EvidencePack.PackIsSound` | internal/search/app/service.go:139-204 | reference integrity of every pack: numbers are places, and contradictions address facts that are there |
| `EvidencePack.PackContradictions` | internal/search/app/service.go:139-204 | its contradictions are exactly the stored ones between facts that made the cut, in order, each naming the facts meant |
| `EvidencePack.FactsByText` | internal/answer/adapters/pg/retrieve.go:122-156 | facts found by text are numbered as read |
| `EvidencePack.AugmentFacts` | internal/answer/app/service.go:190-204 | replacing too few facts drops the contradictions, so reference integrity survives |
| `CatalogCommit.Builder.ResolveRef` | internal/catalog/app/service.go:148-162 | a name keeps its id or gets a new entity registered under name and slug |
| `CatalogCommit.Builder.Build` | internal/catalog/app/service.go:138-248 | the loops compute the command specified for the bundle, whose facts `FactLandsIff` traces back |
| `CatalogCommit.MentionIs` | internal/catalog/app/service.go:164-173 | a mention that is known or refused changes nothing, another gets a new entity of its type, known under name and slug |
| `CatalogCommit.AddFactIs` | internal/catalog/app/service.go:185-233 | one candidate adds at most one fact, whose subject and parameter are what its two names mean at that point, and registers both names |
| `CatalogCommit.PassedOverIff` | internal/catalog/app/service.go:185-196 | it is passed over exactly when its operator is unknown or a name is refused; a subject registered on the way stays |
| `CatalogCommit.CommandIsCommittable` | internal/catalog/app/service.go:138-248 | every command has distinct fresh entity ids, and its facts name only resolved or new entities |
| `CatalogCommit.ChunksAreNew` | internal/catalog/app/service.go:175-184 | chunks keep their ordinals and get new distinct ids |
| `CatalogCommit.NoCandidateLost` | internal/catalog/app/service.go:185-239 | while no name is refused, every candidate with a known operator becomes a fact about the entities its names mean, in order |
| `CatalogCommit.FactsAreNew` | internal/catalog/app/service.go:198-239 | facts get new distinct ids |
| `CatalogCommit.ChunkForIff` | internal/catalog/app/service.go:182-183 | a name leads to a chunk exactly when that chunk carries it and no later one does, and to none exactly when no chunk carries it |
| `CatalogCommit.FactLandsIff` | internal/catalog/app/service.go:198-233 | a fact of the command has the values of a candidate with a known operator and, as subject and parameter, what the names of that candidate meant when it was reached; it is attached to a chunk exactly when the candidate names the chunk and no later chunk has the same name |
| `CatalogCommit.ChunksAddressableIff` | internal/catalog/app/service.go:175-184 | naming a chunk leads to it, for every chunk, exactly when no two chunks share a name |
| `CatalogCommit.UnnamedChunksCollapse` | services/extract/src/extract/main.py:87-97 | the failing bundle: of two chunks without a name, as the extractor writes them, only the second can be reached |
| `CatalogCommit.UpsertAllIs` | internal/catalog/adapters/pg/repository.go:164-180 | existing rows stay, every new slug is present, a free slug goes to a new entity carrying it |
| `CatalogCommit.UpsertAllUnique` | internal/catalog/adapters/pg/repository.go:164-180 | row ids stay unique |
| `CatalogCommit.StoredNew` | internal/catalog/adapters/pg/repository.go:164-187 | a new entity stands for the row of its slug, so entities that slugify alike collapse to one row |
| `CatalogCommit.InsertEntities` | internal/catalog/adapters/pg/repository.go:164-180 | the entity loop stores the rows and collects the remapping |
| `CatalogCommit.RemapIsStored` | internal/catalog/adapters/pg/repository.go:182-187 | looking an id up in the remapping gives the id of its row |
| `CatalogCommit.RowSays` | internal/catalog/adapters/pg/repository.go:206-225 | a row says what its fact says, about the rows its entities are stored as |
| `CatalogCommit.ChunkStoredIff` | internal/catalog/adapters/pg/repository.go:189-204 | a chunk id is stored afterwards exactly when it was before or belongs to a new chunk whose place was free |
| `CatalogCommit.InsertFactRows` | internal/catalog/adapters/pg/repository.go:206-225 | facts are stored under remapped ids; one fails everything when its bounds are reversed, is skipped when its key is present, and else fails everything when its chunk or unit is not stored |
| `CatalogCommit.InsertFactsIff` | db/migrations/000001_init.up.sql:147-163 | the insertion succeeds exactly when no fact has reversed bounds and none brings a new key with a chunk or a unit that is not stored |
| `CatalogCommit.ReversedIff` | db/migrations/000001_init.up.sql:163 | bounds are reversed exactly when no value lies between them |
| `CatalogCommit.InsertFactsIs` | internal/catalog/adapters/pg/repository.go:206-225 | a successful insertion keeps what was there and adds exactly the new keys, each with the id of its first fact |
| `CatalogCommit.CommitKeepsReferences` | internal/catalog/adapters/pg/repository.go:164-225 | afterwards every stored fact names existing entities and ids are unique |
| `CatalogCommit.InsertKeepsUnits` | db/migrations/000001_init.up.sql:160 | afterwards every stored fact has a known unit or none |
| `CatalogCommit.Store.Commit` | internal/catalog/adapters/pg/repository.go:139-243 | all or nothing: succeeds exactly when the document exists, no fact has reversed bounds, and every fact has a key already stored or brought by an earlier fact, or names a stored chunk or none and a known unit or none; then the tables are as specified and consistent |
| `CatalogCommit.EntityIds` | internal/catalog/app/service.go:351-371 | the announced ids are those of new entities, then both ends of facts, each at its first place |
| `CatalogCommit.AnnouncedIdsAre` | internal/catalog/app/service.go:351-371 | the announced ids are free of repetition and cover the command |
| `CatalogCommit.ListsInOrder` | internal/catalog/app/service.go:351-389 | the lists before repetitions are dropped, in order, subject before parameter |
| `CatalogCommit.ClusterKeys` | internal/catalog/app/service.go:377-389 | the cluster keys of the facts, each at its first place |
| `CatalogCommit.AnnouncedKeysAre` | internal/catalog/app/service.go:377-389 | cluster keys are free of repetition and cover all facts |
| `CatalogCommit.AnnouncedIdsExistIff` | internal/catalog/app/service.go:272-301 | the announced ids all exist after the commit exactly when no new entity met a slug already taken |
| `CatalogCommit.AnnouncedClustersExistIff` | internal/catalog/app/service.go:284-296 | every announced cluster has a stored fact exactly when no fact has an end whose slug was taken |
| `CatalogCommit.AnnouncedFactsExistIff` | internal/catalog/app/service.go:281 | the announced fact ids all exist exactly when no fact was skipped |
| `CatalogCommit.MergedEntityReturnsIff` | internal/catalog/adapters/pg/repository.go:87-91 | an entity that resolution leaves out, such as a merged one, is named by a fact of a later commit exactly when the fact refers to a draft with its slug |
| `CatalogCommit.NewFactOnOldChunkFails` | internal/catalog/adapters/pg/repository.go:97-108 | the failing re-extraction: a new fact on a chunk whose place is taken |
| `CatalogCommit.NewFactOnNewChunkSucceedsIff` | internal/catalog/adapters/pg/repository.go:97-108 | the same fact on a new ordinal goes in exactly when its bounds are in order and its unit is known, or its key stored |
| `CatalogCommit.EmptyUnitTableFails` | db/migrations/000001_init.up.sql:160 | while the unit table is empty, as the migrations leave it, a commit with a new fact that has a unit fails |

## Left out

- Relay.Relay.Run: one relay working alone; with other relays only the safety theorems are stated, since the program promises no fairness between them. Progress of single rows is told for distinct creation times, because the query orders rows created at the same time as it likes.
- Queue.QueueAfter: how many ticks a row waits is told for rows that fare the same in every tick; for a broker that changes, `Relay.EventuallyPublishedIff` says whether a row is published, not when.
- Redelivery.FaultFreeIsAtMostOnce: does not use the broker's own deduplication window for message ids, which is configuration of a server outside the repository.
- EmbedCache.CachingEmbedder.Embed: the lock around the cache in the serving code is not modelled; calls are taken one after the other.
- AnswerService.Service.Ask: facts and chunks are augmented by one function given as a parameter; the two steps themselves are `EvidencePack.AugmentFacts` and `Interleave.InterleaveChunks`. Expiry of cached answers is not modelled.
- Bus.Delivery.Consume: waiting times between redeliveries and expiry of the stream are not modelled.
- NumCore.ExtractFacts: quotes, flag texts and raw values of a fact are left out; they do not influence acceptance or order.
- CatalogCommit.Store.Commit: aliases, the recomputed edges, the document status and the outbox rows of the same transaction are left out; so is the plausibility classification of facts. The columns that are enumerations in the schema (entity type, geography, extraction method) and the length of embeddings are taken to be valid.
- GraphMerge.Catalog.MergeEntities: weights and provenance of edges, and the audit row, are left out; they take no part in any key. Cluster rows and cached answers hold entity ids without referring to the entity table, and are left out too.
- QueryFilter.PassesIff: the entity and validation-status conditions of the query are conjunctions with table columns and are left out, and so is the row-level visibility of documents to the asking principal.
- Regular expressions, keyword tables, intent routing and geography detection: matches are inputs; the tables are finite lookups.
- Parsing of numbers, UTF-8 decoding and JSON: abstract parameters.
- Rounding of floating-point arithmetic, clocks, timeouts, retries and connection handling.
- Ranking weights, role tables, labels and formatting of answers: settled by reading one branch.
- HTTP handlers, user interface, object storage, model clients and generated protobuf code.
- The SQL of cluster sizes and contradictions: it depends on snapshot semantics of the database.
