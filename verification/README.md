# HPC telemetry: delivery, straggler ranking and evaluation

A Dafny model of the telemetry system's logic, with proofs of what it guarantees.

| file | what it models |
|---|---|
| `Framing.dfy`, `Reassembly.dfy`, `Desync.dfy`, `Outcomes.dfy`, `Ingest.dfy` | the wire framing (both decoders), reassembly of a byte stream that arrives in arbitrary pieces, what follows an unknown tag, and the ingestion connection loop writing to the store |
| `Sender.dfy`, `Accounting.dfy`, `Agent.dfy` | the agent's bounded drop-oldest queue: its atomic steps, the ledger of what is queued, sent or lost, and the class with its two threads |
| `Delivery.dfy`, `Balance.dfy`, `Persistence.dfy`, `Arrival.dfy`, `Fleet.dfy` | agents, connections, service and sample table together, over every interleaving |
| `Validation.dfy`, `Samples.dfy`, `Rollups.dfy`, `Store.dfy` | batch validation and the tables, keyed by their primary keys, with the 1-minute and 1-hour rollups |
| `Sorting.dfy`, `OrderStatistics.dfy`, `Straggler.dfy`, `StragglerReport.dfy`, `StragglerProperties.dfy` | the median/MAD straggler ranking, what its report says, and its theorems |
| `Wilson.dfy`, `Decision.dfy`, `Evaluation.dfy`, `Verdict.dfy` | the Wilson interval, the decision rule, the summary of the trials and what it says about them |
| `Jobs.dfy`, `Sieve.dfy`, `Rates.dfy` | the phase-barrier orchestrator, the prime sieve and the counter-to-rate sampler |

Code that changes state in place is a class or a method with loops, proved against a specification function
or a step system; the theorems are then about those. Runs are sequences of atomic steps in any order:
records enqueued, batches taken, connections made or refused, bytes accepted a few at a time, sends that
finish or fail, bytes read by the service. A run of the sender's code is such a run, because every method of
`Agent.SampleSender` keeps a ledger of its steps.

What the outside world supplies is a parameter: results of socket calls, clock readings, arriving reports,
the number of polls before a deadline, which `/proc` files could be read, and the square root, a function that
need only satisfy `IsSqrt`. Protobuf is a `Codec` that gives back every stretch of at most 256 successive records
of the history, whether it is sent or not, each in less than 2^32 bytes.

Where the code does something other than its comments or its summary suggest, the model follows the code:

- On an unknown tag the connection is not dropped, as the comment at
  `ingestion/src/hpctel/ingest_server.py:62-65` says, but only its buffer. Nothing is handled beyond the tag, as
  the comment intends, exactly under the condition of `Desync.NothingBeyondTagExactly`; what may be handled
  otherwise is the subject of `Outcomes.OutcomesExactly`; and whether it depends on how the stream was read, in
  reads of at most 65536 bytes, is decided by `Outcomes.ReadsAgreeExactly`. `Desync.BadTagDependsOnChunks` is a
  stream for which it does, and `Outcomes.AllReadsHandleBeyond` one for which all reads agree on a frame beyond
  the tag.
- After a successful send the sender erases as many records as it sent from the front of the queue, even if
  an overflow moved the front meanwhile. The number lost still equals the drop counter, but the lost records
  are the dropped ones exactly when no overflow fell inside a successful send (`Accounting.Conservation`);
  `Accounting.OverflowDuringSend` is a run in which they are not.
- The summary of the trials raises a division by zero when no trial was a detection, because the tag accuracy
  is then decided over zero trials with zero as the predeclared number (`Evaluation.SummarizeRaisesExactly`).
  `Evaluation.NoResultsRaises`: replaying a manifest of which no trial has been run.
- The guard on total ticks does not make the CPU percentages meaningful by itself
  (`Rates.PercentagesExactly`, with readings that show it in `Rates.TotalGuardIsNotEnough`).
- Phase reports are counted, not matched with the hosts: a job can complete although a host never reported
  (`Jobs.OutsiderCompletes`); `Jobs.ReportersAreHostsExactly` says when the reporters are the hosts.
- Bucket starts are floor-aligned only because negative timestamps are rejected on the way in
  (`Rollups.FloorAlignedExactly`, `Persistence.IngestedBucketsAreAligned`).

The end-to-end result is `Persistence.StoredExactly` with `Persistence.FirstHandledWins`: in every run, and
whatever the clocks say, the sample table is what the handled records that passed validation at their own moment
of handling leave behind, first writer first. `Balance.EverythingAccounted` is its counting side,
and `Fleet.FleetRows` carries it over to any number of agents.

## Model

| member | source | states |
|---|---|---|
| Framing.EncodeFrame | agent/src/framing.cpp:13-21 | a frame is the tag byte, the size modulo 2^32 in four bytes, and the payload |
| Framing.HeaderLayout | agent/src/framing.cpp:13-21 | the size field has its most significant byte first and equals the payload size |
| Framing.RoundTripExactly | agent/src/framing.cpp:13-21 | encoding then decoding gives the frame back exactly when the payload is shorter than 2^32 bytes, and what is left of a longer one |
| Framing.DecodeFrameAgent | agent/src/framing.cpp:23-48 | on every buffer the agent's decoder yields the same frame and consumed count as the service's, with an unknown tag counting as no frame |
| Framing.DecodedIsEncoded | ingestion/src/hpctel/framing.py:31-51 | a decoded frame is the one whose encoding starts the buffer, and exactly its bytes are consumed |
| Framing.DecodeExactly | ingestion/src/hpctel/framing.py:31-51 | a buffer decodes iff it starts with some whole frame, and is rejected iff its first byte is no known tag |
| Framing.CutFrameIsIncomplete | ingestion/src/hpctel/framing.py:39-49 | a strict prefix of a frame never decodes and is never taken for a bad tag |
| Framing.PrefixFree | agent/src/framing.cpp:13-21 | no frame is a strict prefix of another |
| Framing.UniqueDecoding | agent/src/framing.cpp:13-21 | a byte stream determines the sequence of frames in it and the cut frame after them |
| Reassembly.ParseIsExact | ingestion/src/hpctel/ingest_server.py:54-73 | parsing accounts for every byte, and stops only at an incomplete frame or an unknown tag |
| Reassembly.ChunkInvariance | ingestion/src/hpctel/ingest_server.py:29-73 | however a stream is cut, the frames handled before the first unknown tag are those of a one-shot parse, and without one the buffer is the unparsed suffix |
| Reassembly.EofReportExactly | ingestion/src/hpctel/ingest_server.py:33-45 | at end of stream the report is decided by how many bytes of the next frame had arrived |
| Desync.NothingBeyondTagExactly | ingestion/src/hpctel/ingest_server.py:20-66 | no way of reading a stream, at most 65536 bytes at a time, handles anything but the frames before its first unknown tag iff it has none or no frame starts at a later position where the buffer can be empty |
| Desync.BadTagDependsOnChunks | ingestion/src/hpctel/ingest_server.py:56-66 | a stream and two ways of reading it that handle different frames |
| Desync.FarFrameIsSafe | ingestion/src/hpctel/ingest_server.py:20-32 | a frame behind an unknown tag and 65536 known ones is out of reach of every sequence of reads |
| Desync.NearFrameIsNot | ingestion/src/hpctel/ingest_server.py:20-32 | with one known tag less it is within reach |
| Outcomes.OutcomesExactly | ingestion/src/hpctel/ingest_server.py:20-66 | the frame sequences that some way of reading a stream handles are exactly those computed by recursion over its unknown tags |
| Outcomes.ReadsAgreeExactly | ingestion/src/hpctel/ingest_server.py:20-66 | all ways of reading a stream handle the same frames iff at each unknown tag it makes no difference where the read that brings it ends, and then they are those of skipping one byte per unknown tag |
| Outcomes.NothingBeyondIsSettled | ingestion/src/hpctel/ingest_server.py:54-66 | a stream of which nothing is handled beyond the unknown tag is one on which all ways of reading agree |
| Outcomes.AllReadsHandleBeyond | ingestion/src/hpctel/ingest_server.py:56-66 | a stream on which all ways of reading agree, on a frame beyond the unknown tag |
| Ingest.Connection.DrainFrames | ingestion/src/hpctel/ingest_server.py:54-73 | the loop leaves the buffer and the handled frames of a full parse, and applies those frames to the store in order |
| Ingest.Connection.HandleConnection | ingestion/src/hpctel/ingest_server.py:23-51 | the connection's state and effect on the store are those of receiving the chunks before end of stream, and the end is reported by what is left |
| Ingest.Connection.HandleSampleBatch | ingestion/src/hpctel/ingest_server.py:76-112 | the accepted samples of a supported batch, and nothing else, are inserted as rows |
| Ingest.HandleFramesAppend | ingestion/src/hpctel/ingest_server.py:54-73 | handling frames in two goes is handling them in one |
| Ingest.PhaseEventIsStored | ingestion/src/hpctel/ingest_server.py:115-132 | a phase event is stored under its key unless that has a report, and touches nothing else |
| Ingest.PhaseEventsExactly | ingestion/src/hpctel/ingest_server.py:70-73 | after any frames the phase table is the old one with the reports among them inserted in order |
| Validation.ValidateBatch | ingestion/src/hpctel/validation.py:31-68 | only schema version 1 is accepted, and of such a batch exactly the samples with a metric from 1 to 10 and a timestamp from zero to a day ahead |
| Validation.ValidationExactly | ingestion/src/hpctel/validation.py:52-68 | in the numbers of the checks: which positions are accepted, in order, and which of the two codes each dropped one gets |
| Validation.SplitKeepsOrder | ingestion/src/hpctel/validation.py:52-68 | the batch is split in order into accepted and dropped, with no sample in both or neither, and each reason code belongs to its sample |
| Sender.SendAll | agent/src/sender.cpp:23-33 | the socket gets as many bytes as the calls accept until one fails; success means all of them, failure a strict prefix |
| Sender.AllAcceptedExactly | agent/src/sender.cpp:23-33 | everything is accepted iff some number of successful calls can take that many bytes |
| Agent.SampleSender.Enqueue | agent/src/sender.cpp:58-70 | a full queue loses its oldest record, counted once, and the new record goes to the end |
| Agent.SampleSender.TakeBatch | agent/src/sender.cpp:82-88 | the batch is a copy of up to 256 records at the front |
| Agent.SampleSender.EraseSent | agent/src/sender.cpp:96-99 | exactly as many records as were sent are erased from the front, because the queue has not become shorter meanwhile |
| Agent.SampleSender.ConnectIfNeeded | agent/src/sender.cpp:92-95 | a batch is kept only if there is a connection |
| Agent.SampleSender.SendBatch | agent/src/sender.cpp:145-165 | the open connection's stream has grown by the accepted prefix of the batch's frame, which is all of it iff the send succeeded |
| Agent.SampleSender.RunRound | agent/src/sender.cpp:82-104 | the sender's whole state after one round: with no records or no connection only the arrivals; else the stream has grown by what was accepted of the frame of the first 256, which leave the queue iff it was all, and the connection is given up iff not |
| Agent.SampleSender.SendHeld | agent/src/sender.cpp:92-104 | the same from the connection attempt on |
| Agent.SampleSender.RunLoop | agent/src/sender.cpp:79-105 | over any number of rounds the state is that of the rounds one after another, the queue is a suffix of what arrived, and what arrived is queued, sent or counted as dropped |
| Agent.RoundsDrainQueue | agent/src/sender.cpp:79-105 | rounds in which nothing arrives and the network is willing deliver the queue, 256 records each, without a loss |
| Accounting.QueueIsSuffix | agent/src/sender.cpp:58-99 | in every run the queue is the tail of the history within its limit, and the erase count is the batch size |
| Accounting.Conservation | agent/src/sender.cpp:58-99 | with no batch held, enqueued = queued + sent + dropped, as many are lost as were dropped, and the lost ones are the dropped ones iff no overflow fell inside a successful send |
| Accounting.OverflowDuringSend | agent/src/sender.cpp:58-99 | a run at queue size 1 after which the dropped record is the sent one, and the lost record is the other |
| Delivery.HandledArePrefix | agent/src/sender.cpp:79-105 | in every run, what the service has handled on a connection is a prefix of the batches completely sent there, and it never loses its place |
| Delivery.AllReadAllHandled | ingestion/src/hpctel/ingest_server.py:29-48 | once everything on a connection has been read, every batch sent there has been handled |
| Delivery.HandledAtMostOnce | agent/src/sender.cpp:79-105 | no history position is handled twice: handled batches advance through the history on each connection, and batches on an earlier connection end before those on a later one begin |
| Balance.EverythingAccounted | agent/src/sender.cpp:58-105 | with no batch held, enqueued = queued + handled + sent but not handled + dropped, and nothing is sent but not handled iff every whole frame on every connection has been read to its end |
| Balance.CanStepExactly | ingestion/src/hpctel/ingest_server.py:32 | in every reachable state the sender can do whatever its own state allows, and any number of unread bytes can be read |
| Balance.EverythingCanBeRead | ingestion/src/hpctel/ingest_server.py:29-48 | from every reachable state reading alone leads to one in which everything on the wire is read |
| Persistence.StoredExactly | ingestion/src/hpctel/ingest_server.py:76-112 | in every run a key has a row iff some enqueued record with that key was handled and passed validation by the clock of that moment |
| Persistence.FirstHandledWins | ingestion/src/hpctel/storage/tsdb.py:28-42 | the row under a key has the values of the first such record in the order of handling, and the arrival time read then |
| Persistence.LogIsComplete | ingestion/src/hpctel/ingest_server.py:54-73 | the records in the order of handling are exactly those the service has handled on some connection |
| Persistence.HandledOnce | agent/src/sender.cpp:79-105 | in that order no record occurs in two handled frames |
| Persistence.IngestedBucketsAreAligned | ingestion/src/hpctel/validation.py:59-61 | rows that came in over the wire lie in the bucket that their rollup starts |
| Arrival.RecordCanArrive | ingestion/src/hpctel/ingest_server.py:76-112 | for every record that passes validation there is a run after which the table holds its row and nothing else |
| Fleet.FleetRows | ingestion/src/hpctel/ingest_server.py:23-51 | with several agents writing one table, the rows under a node id that only one of them has are those that agent would have alone |
| Fleet.FleetStoredExactly | ingestion/src/hpctel/ingest_server.py:76-112 | a key has a row iff some agent's record with that key was handled and passed validation by the clock of that moment |
| Samples.InsertRowsExactly | ingestion/src/hpctel/storage/tsdb.py:28-42 | an insert leaves old rows unaltered and adds, for each new key, the first row that carried it |
| Samples.ReplayChangesNothing | ingestion/src/hpctel/storage/tsdb.py:28-42 | replaying inserted batches, any number of times in any order, changes nothing |
| Store.TsdbStore.InsertSamples | ingestion/src/hpctel/storage/tsdb.py:28-42 | the loop inserts or ignores each row and returns the growth of the table |
| Store.TsdbStore.RecomputeRollups | ingestion/src/hpctel/storage/tsdb.py:101-133 | both rollups of the series are the GROUP BY of its raw rows, and other series are untouched |
| Store.TsdbStore.SetJobStatus | ingestion/src/hpctel/storage/tsdb.py:185-187 | only the status of the named job changes |
| Store.TsdbStore.InsertPhaseEvent | ingestion/src/hpctel/storage/tsdb.py:209-238 | the first report of a node for a phase wins |
| Store.TsdbStore.CountPhaseReports | ingestion/src/hpctel/storage/tsdb.py:240-245 | the count is the number of distinct nodes that reported |
| Store.ReportersGrow | ingestion/src/hpctel/storage/tsdb.py:209-238 | further reports never remove a reporter |
| Store.InsertReportsExactly | ingestion/src/hpctel/storage/tsdb.py:209-238 | reports leave old ones unaltered and add, for each new key, the first report that carried it |
| Rollups.FloorAlignedExactly | ingestion/src/hpctel/storage/schema.py:30-33 | a bucket contains its timestamp iff the timestamp is not negative or lies on a boundary |
| Rollups.BucketWidths | ingestion/src/hpctel/storage/schema.py:30-51 | from the epoch on buckets start at whole minutes and hours of nanoseconds |
| Rollups.GroupByBucket | ingestion/src/hpctel/storage/tsdb.py:115-132 | visiting the rows in any order gives the count, mean, minimum and maximum of each bucket that has a row |
| Rollups.RollupIsUnique | ingestion/src/hpctel/storage/tsdb.py:101-106 | a rollup is determined by the raw rows, so it can be rebuilt from them |
| Rollups.ReplaceGroupsExactly | ingestion/src/hpctel/storage/tsdb.py:111-131 | replacing one series' entries leaves those of every other series |
| Rollups.RollupConserves | ingestion/src/hpctel/storage/tsdb.py:115-132 | bucket counts add up to the raw row count, and count times average to the raw sum |
| Rollups.AverageWithinBounds | ingestion/src/hpctel/storage/tsdb.py:123-126 | the average of a bucket lies between its minimum and maximum |
| Rollups.HoursFoldMinutes | ingestion/src/hpctel/storage/tsdb.py:107-132 | folding the 1-minute rollup into hours gives the 1-hour rollup: same hours, counts, weighted averages, extremes |
| Rollups.StaleRollupIsSound | ingestion/src/hpctel/storage/tsdb.py:101-133 | an older rollup has counts no larger, minima no smaller and maxima no larger than a fresh one |
| OrderStatistics.KthIsKth | ingestion/src/hpctel/analysis/straggler.py:53-54 | the k-th value of the sorted list is the one with at most k smaller and more than k not larger values |
| OrderStatistics.KthUnique | ingestion/src/hpctel/analysis/straggler.py:53-54 | that count determines the k-th value |
| StragglerReport.CenterExactly | ingestion/src/hpctel/analysis/straggler.py:53 | scores are measured from the middle of the durations, by counting |
| StragglerReport.ScaleExactly | ingestion/src/hpctel/analysis/straggler.py:54-55 | their unit is the middle of the distances from there, but at least a million nanoseconds |
| StragglerReport.ScoreExactly | ingestion/src/hpctel/analysis/straggler.py:57-72 | score times unit is 0.6745 times the distance, and a flag is a score above 3.5 |
| StragglerReport.TooFewNodes | ingestion/src/hpctel/analysis/straggler.py:47-48 | fewer than three nodes are reported as insufficient evidence, with nothing else |
| StragglerReport.ReportExactly | ingestion/src/hpctel/analysis/straggler.py:62-86 | exactly the given nodes in descending duration, ties by ascending node id, each with its score and flag; the candidate is the first if flagged |
| StragglerReport.NaiveExactly | ingestion/src/hpctel/analysis/straggler.py:77 | the naive pick is the slowest node, ties by node id, whether or not anything is flagged |
| Sorting.LexLeqExactly | ingestion/src/hpctel/analysis/straggler.py:62 | node ids are compared by their first difference, a prefix coming first |
| Straggler.FlaggedLinear | ingestion/src/hpctel/analysis/straggler.py:57-69 | a node is flagged iff 0.6745 times its excess over the median exceeds 3.5 times the scale |
| Straggler.RankingIsByDuration | ingestion/src/hpctel/analysis/straggler.py:57-62 | the ranking by score is the ranking by duration, ties by node id, of exactly the given nodes |
| StragglerProperties.StrictMinority | ingestion/src/hpctel/analysis/straggler.py:53-74 | for three or more nodes, fewer than half are flagged |
| StragglerProperties.FlaggedNodeIsIsolated | ingestion/src/hpctel/analysis/straggler.py:50-75 | raising a flagged node's duration changes no other node's score or flag, and the node stays flagged with a larger score |
| StragglerProperties.ReportIgnoresOrder | ingestion/src/hpctel/analysis/straggler.py:50-86 | the report does not depend on the order of the dictionary |
| StragglerProperties.ShiftInvariance | ingestion/src/hpctel/analysis/straggler.py:53-77 | adding a constant to all durations changes no score, flag, place or candidate |
| StragglerProperties.StretchInvariance | ingestion/src/hpctel/analysis/straggler.py:53-70 | a positive factor keeps the order; a factor of at least one unflags nobody; flags are equal when the floor binds neither before nor after |
| StragglerProperties.FlaggedPrefix | ingestion/src/hpctel/analysis/straggler.py:62-74 | flagged nodes form a prefix of the ranking |
| StragglerProperties.BaselineDominance | ingestion/src/hpctel/analysis/straggler.py:74-77 | there is a candidate iff the largest duration is flagged; it has that duration, and is the naive pick iff nobody ties |
| StragglerProperties.MedianDuplication | ingestion/src/hpctel/analysis/straggler.py:53-75 | duplicating the median node of an odd batch keeps the median, does not raise the scale, unflags nobody and keeps a candidate |
| StragglerProperties.DuplicationCandidateExactly | ingestion/src/hpctel/analysis/straggler.py:53-75 | after the median node of an odd batch is duplicated, the candidate is the first of the old ranking iff the largest duration is flagged on the scale that averages the two middle deviations, and else there is none |
| StragglerProperties.DuplicationCanFlag | ingestion/src/hpctel/analysis/straggler.py:53-75 | a batch without a candidate that has one after its median node is duplicated |
| Wilson.RootOfSquare | ingestion/src/hpctel/analysis/stats.py:28 | the root of a square is the number itself, and the only one |
| Wilson.IntervalCases | ingestion/src/hpctel/analysis/stats.py:19-22 | no trials give the interval from 0 to 1, and counts outside 0 to n are refused |
| Wilson.WilsonInversion | ingestion/src/hpctel/analysis/stats.py:24-30 | p lies in the interval iff n (phat - p)^2 <= z^2 p (1 - p) |
| Wilson.WilsonShape | ingestion/src/hpctel/analysis/stats.py:24-30 | 0 <= lower <= phat <= upper <= 1, and lower < upper |
| Wilson.IntervalEnds | ingestion/src/hpctel/analysis/stats.py:24-30 | the clamped bounds are the two exact roots of the quadratic, so the clamps never change anything |
| Wilson.WilsonSymmetry | ingestion/src/hpctel/analysis/stats.py:24-30 | swapping successes and failures mirrors the interval |
| Wilson.WilsonMonotone | ingestion/src/hpctel/analysis/stats.py:24-30 | both bounds rise strictly with the successes |
| Wilson.LowerReaches | eval/run_trials.py:156 | whether the lower bound reaches a threshold below 1, without the root |
| Wilson.UpperReaches | eval/run_trials.py:153 | whether the upper bound is within a threshold above 0, without the root |
| Decision.DecideReports | eval/run_trials.py:148-168 | what is reported: the proportion, the 95 percent interval, the bound that the rule looks at, and whether it meets the threshold |
| Decision.LowerCutoff | eval/run_trials.py:155-157 | the passing counts under the lower rule are those from one cutoff on |
| Decision.UpperCutoff | eval/run_trials.py:152-154 | the passing counts under the upper rule are those up to one cutoff |
| Decision.LowerRuleReachable | eval/run_trials.py:155-157 | some count passes the lower rule iff n (1 - t) >= z^2 t |
| Decision.UpperRuleReachable | eval/run_trials.py:152-154 | some count passes the upper rule iff n t >= z^2 (1 - t) |
| Decision.NoFaultBatchNeverPasses | eval/run_trials.py:205-214 | the 16-trial batch cannot pass at 0.10, whatever is observed |
| Evaluation.SummarizeRaisesExactly | eval/run_trials.py:171-269 | summarising raises iff there was no detection among the completed trials or no no-fault trial in the manifest |
| Evaluation.NoResultsRaises | eval/run_trials.py:171-269 | the manifest of 80 and 16 trials without any result file makes summarising raise |
| Evaluation.NaiveDominates | eval/run_trials.py:182-237 | without ties every detection is a naive detection, so the naive baseline passes whenever the ranking does |
| Evaluation.SummaryImplications | eval/run_trials.py:171-269 | the same in the summary itself, and the no-fault estimand of 16 trials never passes there |
| Evaluation.TypesAddUp | eval/run_trials.py:181-249 | the detections per fault type add up to the detections of estimand 1 |
| Verdict.EstimandsExactly | eval/run_trials.py:181-237 | each estimand over all completed trials is the decision for its own count over the manifest's result files, with its rule and threshold |
| Verdict.ConditionalEstimands | eval/run_trials.py:216-249 | the tag accuracy is decided over the detections, with their own number as the predeclared one, and each fault type over its own trials, forty planned |
| Verdict.ConditionalCounts | eval/run_trials.py:216-245 | those detections, right tags, trials and successes of a type, counted over the manifest's result files |
| Verdict.PrimaryClaimExactly | eval/run_trials.py:239 | the primary claim is supported iff there are fault trials, all completed, the lower bound for the detections is at least 0.75 and the upper bound for those with another node flagged at most 0.15 |
| Jobs.PhaseBarrier | ingestion/src/hpctel/jobs.py:88-107 | in every interleaving a phase is dispatched only after each earlier one was reported by at least as many distinct nodes as there are hosts |
| Jobs.CompletedMeansReported | ingestion/src/hpctel/jobs.py:88-109 | "completed" means every phase was dispatched to every host in order and reported by enough nodes |
| Jobs.ReportersAreHostsExactly | ingestion/src/hpctel/jobs.py:46-52 | the reporters of a phase of a completed job are the hosts, each listed once, iff no node outside the list reported it |
| Jobs.OutsiderCompletes | ingestion/src/hpctel/jobs.py:46-52 | a run that completes although the only host never reported |
| Jobs.StatusIsFinal | ingestion/src/hpctel/jobs.py:104-109 | once the status has left "running" nothing changes it and nothing more is dispatched |
| Jobs.FaultGoesToTarget | ingestion/src/hpctel/jobs.py:90-101 | a dispatch carries the fault iff it is for the target host and the chosen phase, with the type and the intensity of the manifest, 2 if it names none |
| Jobs.InTimeExactly | ingestion/src/hpctel/jobs.py:46-52 | a phase is in time iff its reports are there when its wait ends, which is iff they are there by the deadline |
| Jobs.Orchestrator.Await | ingestion/src/hpctel/jobs.py:51 | exactly the reports that arrive during an await are stored |
| Jobs.Orchestrator.DispatchPhase | ingestion/src/hpctel/jobs.py:88-102 | dispatching a phase sends its plan to every host, and is a run of the step system that ends waiting |
| Jobs.Orchestrator.WaitForPhaseReports | ingestion/src/hpctel/jobs.py:46-52 | the wait goes on until enough nodes have reported or the polls are used up, and succeeds iff at some moment until then enough have |
| Jobs.Orchestrator.RunPhase | ingestion/src/hpctel/jobs.py:88-103 | one phase is dispatched and waited for until the moment its reports or its deadline come |
| Jobs.Orchestrator.ExecuteJob | ingestion/src/hpctel/jobs.py:77-109 | the job completes iff every phase is in time and else times out in the first that is not, having dispatched exactly the phases up to there; its stored status is written once and no other job touched |
| Jobs.RunJob | ingestion/src/hpctel/jobs.py:55-109 | a created job keeps its definition and ends completed iff every phase is in time and else timed out; every other job is left alone |
| Sieve.IntSqrt | workload/src/workloadrunner/compute.py:23 | the integer square root |
| Sieve.StrikeMultiples | workload/src/workloadrunner/compute.py:25-26 | the inner loop clears exactly the multiples of the candidate from its square on |
| Sieve.SurvivorsArePrime | workload/src/workloadrunner/compute.py:23-27 | once all primes up to the square root have been used, the survivors are the primes |
| Sieve.RunPrimeSieve | workload/src/workloadrunner/compute.py:13-27 | for every limit the in-place loops return the number of primes up to it |
| Rates.ProcReader.Sample | agent/src/proc_reader.cpp:214-292 | one call emits the rates since the remembered readings and the gauges, and remembers what could be read |
| Rates.ReadingsExactly | agent/src/proc_reader.cpp:222-264 | the rates of a call are those of processor, disk and network in this order, and none at a first call or a clock that stands still |
| Rates.CpuExactly | agent/src/proc_reader.cpp:226-244 | the two shares, times the growth of the total, are 100 times the growth of the busy and of the waiting ticks |
| Rates.DiskExactly | agent/src/proc_reader.cpp:245-256 | when both counters are reported, and their rates in sectors of 512 bytes per 10^9 nanoseconds |
| Rates.NetExactly | agent/src/proc_reader.cpp:257-265 | the same for received and sent bytes |
| Rates.PercentagesExactly | agent/src/proc_reader.cpp:226-244 | for any two readings, also with sums that wrap: when percentages are emitted, and exactly when each is not negative and when they add up to at most 100 |
| Rates.GrowingTicksAreSound | agent/src/proc_reader.cpp:226-244 | ticks that only grow, without wrapping, give percentages from 0 to 100 |
| Rates.TotalGuardIsNotEnough | agent/src/proc_reader.cpp:229 | two pairs of readings with a growing total that give more than 100 and less than 0 percent |
| Rates.CallConserves | agent/src/proc_reader.cpp:245-264 | a rate times the time it covers is the growth of its counter if the call reports it, and nothing otherwise |
| Rates.RateConservation | agent/src/proc_reader.cpp:222-278 | over every run, with any clock and counters, rate times time adds up to the counter's growth since the first call less what was skipped |
| Rates.AdvancingSkipsNothing | agent/src/proc_reader.cpp:222-278 | with an advancing clock and counters that do not go back nothing is skipped, also across failed reads |

## Left out

- Sockets, DNS, HTTP, routing, asyncio scheduling, threads, signals and the condition variable: only their effects, as steps in any order or as parameters.
- Stopping the sender: `Stop()` only ends a run; records still queued then stay in the queue of the model.
- Protobuf itself, including payloads that do not parse and unserializable batches (the latter behave like a send that fails before its first byte).
- SQLite: tables are maps by primary key; WAL mode, transactions, indexes, NOT NULL and NaN values are not modelled.
- Floating point: scores, averages, rates, percentages and Wilson bounds are exact reals, and int(limit ** 0.5) is the exact integer square root.
- Widths: timestamps and durations are unbounded integers; the 32-bit length field and the 64-bit tick counters are modelled with their wrap-around.
- A maximum queue size of zero, on which the agent would pop from an empty queue.
- Framing.UniqueDecoding: for payloads below 2^32 bytes, the ones the length field can describe (`Framing.RoundTripExactly` says what happens beyond).
- Persistence.StoredExactly: for a service that starts with an empty table and one agent; `Fleet.FleetStoredExactly` has several.
- Jobs.Orchestrator.ExecuteJob: requests to the hosts go out in list order, one await each, where the program awaits them together; a deadline is a number of polls.
- Root-cause tagging and the baseline windows it reads, the query and listing functions, the HTTP API, the trial runner's files, fault injectors, the benchmark and configuration: single-branch logic or plumbing.
