# Verified model of the Kafka encoding benchmarks

This project models the parts of the C++ and Python benchmark suite whose correctness does not follow from
reading one function, and proves their properties with Dafny 4.11. `dafny verify dfyconfig.toml` checks
everything.

| file | subject |
|---|---|
| `SpscRing.dfy` | the lock-free single-producer/single-consumer ring as a machine of atomic steps with stale acquire loads, on 64-bit words and on unbounded counters |
| `SpscCalls.dfy` | what the callers of the ring see over any interleaving of calls |
| `SpscPointerRing.dfy` | the same ring as an object whose `try_push` and `pop` update its fields in place |
| `Pipeline.dfy` | the producer and worker threads of `run_async` with the `producer_done` flag, on top of the ring |
| `PipelineRuns.dfy` | runs of the pipeline built step by step: one that completes everything, one that completes nothing |
| `ProcessEvents.dfy` | the work per event, the synchronous loop, and the comparison of checksums |
| `EventFormat.dfy`, `Delimited.dfy`, `DecimalText.dfy` | the pipe-delimited log line written in place, splitting, decimal text |
| `OrderStatistics.dfy` | percentiles by in-place selection; the Python nearest-rank index |
| `SchemaRegistry.dfy` | JSON escaping, the response-id scanner, the Confluent frame |
| `KafkaRetry.dfy` | the retry loop of the Kafka producer on a bounded queue |
| `KafkaRepetition.dfy` | the delivery reports one repetition is served, told from the environment's script |
| `KafkaProducer.dfy` | the producer as an object: payload ownership, queue and error counter against an abstract librdkafka |
| `EncodeThreads.dfy` | the N-thread encode run with its barrier and two mutexes |
| `EncodeRuns.dfy` | whole encode runs told by their steps: what the checksum counts, and that every run ends |
| `KafkaReport.dfy` | merging CSV files, grouping and validating rows |
| `Decimals.dfy` | text, scaled and 16-byte forms of a decimal |
| `Words.dfy`, `Wrappers.dfy` | 64-bit arithmetic, bit masks, Option and Result |

## How concurrency is modelled

Each load, store and test of `try_push` and `pop` is one step, so an interleaving is a sequence of steps. An
acquire load of the other thread's index may return any value from the last one this thread saw up to the
current one; a load of `producer_done` may miss the store for any time. Slot contents are plain memory: the
ring proves that the two threads never hold the same slot, which is what makes plain accesses sound under
release/acquire publication. The machine runs on two kinds of index, wrapping 64-bit words (the program) and
unbounded counters. The invariant is proved on the counters, and a bisimulation carries it to the words. In the
object form the value an acquire load returns is a parameter, so its contracts hold for stale views as well.

Fields called history (`accepted`, `popped`, `processed`, `successes`, `served`, and the payload sets of the
producer) record what happened and are not part of the program's memory.

## Findings

- The worker reads `producer_done` only after an empty pop and then leaves
  (src/async_pipeline_benchmark.cc:362-364). Events published between that pop and the flag are never processed:
  for every number of iterations there is a run that completes nothing and leaves over all that the ring can hold
  (`PipelineRuns.EverythingCanBeLeftOver`), and one that completes everything
  (`PipelineRuns.EverythingCanBeCompleted`). So every run completes what it accepts if and only if there are no
  iterations at all (`PipelineRuns.CompleteOnlyWithoutWork`). What is left over is exactly what the worker's last
  load of the head did not see (`Pipeline.LeftoverIsLater`, `Pipeline.LeftoverIsUnseen`); popping once more until
  empty after reading the flag would close the gap (`Pipeline.DrainingLeavesNothing`).
- `response_id` takes the first `"id"` of the body as a key (src/schema_registry_benchmark.cc:277-280). A text value
  that is `id`, or that ends in `"id`, supplies one of its own, and the value of the next member is read instead:
  exact for every list of text and integer members before the id (`SchemaRegistry.ResponseIdIsRight`). The program's
  own subjects, `protobuf_encoding_benchmark_<ms>` and names derived from it (src/schema_registry_benchmark.cc:487-488,
  301, 399), hold no quote and so never trigger it (`SchemaRegistry.QuotelessText`).
- A log line splits back into its fields exactly when no field holds a `|` and the first field is not empty
  (`EventFormat.SplitRecovers`): the separator is written unless the position is still 0, so leading empty fields
  leave none (src/async_pipeline_benchmark.cc:107-120).
- A failed serialization does not set the last error, yet the retry loop judges it by that error
  (src/kafka_producer_benchmark.cc:132-141). Every call of a run starts without a last error, so two things can go
  wrong inside one call (`KafkaRetry.CallInARun` has the exact conditions): if the first serialization fails the
  call throws an error that names no error; if it works, meets a full queue and every later one fails, the call retries
  for as long as it is let, however much room the polls make (`KafkaRetry.StuckAfterFullQueue`, reached from a
  new producer in `KafkaProducer.RunIntoFullQueue`).
- `decimal_text` and `scaled_value` agree only when the number behind the six zeros is zero or has two digits
  (src/representation_benchmark.cc:29-35, `Decimals.TextDenotesScaledValue`), although the project describes the
  representations as the same exact decimals. The benchmarks use indices 0 to 9, where they agree.
- The Python report (scripts/kafka_report.py:17) and the C++ programs (src/latency_benchmark.cc:145-149) disagree by
  one rank exactly when n times the fraction is an integer (`OrderStatistics.NearestRank`).

## Model

| member | source | states |
|---|---|---|
| SpscRing.StepKeepsInv | src/async_pipeline_benchmark.cc:207-222 | every micro-step of push and pop, with any stale view, keeps the ring invariant on unbounded counters: views never ahead, at most capacity ahead of the producer's view, live slots in order |
| SpscRing.RunKeepsInv | src/async_pipeline_benchmark.cc:207-222 | the invariant holds after every interleaved run |
| SpscRing.WrappedMinus | src/async_pipeline_benchmark.cc:210 | wrapping subtraction of two indices gives their true distance |
| SpscRing.WrappedSlot | src/async_pipeline_benchmark.cc:211-219 | `index & (Capacity - 1)` selects the slot of the true counter, across the 2^64 wrap |
| SpscRing.UnwrapBetween | src/async_pipeline_benchmark.cc:209-217 | an observed word stands for a unique counter between the last view and the current value |
| SpscRing.Bisimulation | src/async_pipeline_benchmark.cc:203-227 | the ring on 64-bit words and the ring on unbounded counters match each other step for step, for every power-of-two capacity up to 2^63 |
| SpscRing.UnwrapRun | src/async_pipeline_benchmark.cc:203-227 | every run on 64-bit words has a run on counters behind it that ends in the related state |
| SpscRing.ReachableIsFifo | src/async_pipeline_benchmark.cc:207-222 | in every reachable state the popped values are a prefix of the accepted ones, the rest sits in order in the slots from tail on, and `head - tail` is its length, at most the capacity |
| SpscRing.RefinesFifo | src/async_pipeline_benchmark.cc:207-222 | each step does to the queue what a bounded FIFO queue allows: publish appends the offered value to a queue that is not full, pop removes and returns the oldest |
| SpscRing.PushFailsOnlyWhenFull | src/async_pipeline_benchmark.cc:208-210 | with any view, stale or not, `try_push` fails if and only if the values accepted exceed the pops the producer has seen by the capacity; with an up-to-date view if and only if the queue is full |
| SpscRing.PopFailsOnlyWhenEmpty | src/async_pipeline_benchmark.cc:216-218 | with any view `pop` returns null if and only if it has taken every push the consumer has seen; with an up-to-date view if and only if the queue is empty |
| SpscRing.SlotExclusivity | src/async_pipeline_benchmark.cc:210-221 | producer and consumer never hold the same slot, and the slot being filled holds no unread value, even with stale views |
| SpscCalls.PopsFollowPushes | src/async_pipeline_benchmark.cc:207-222 | in any interleaving of calls, unfinished ones included, the values returned by `pop` are in order the first of the values whose `try_push` returned true, and at most the capacity behind them |
| SpscCalls.RunAgrees | src/async_pipeline_benchmark.cc:207-222 | at every point of any interleaving the ring's accepted and popped values are what the calls have reported to their callers plus at most the one value of each call about to return |
| SpscPointerRing.PushCallEffect | src/async_pipeline_benchmark.cc:207-214 | an uninterrupted `try_push` with any view appends the value or leaves the queue alone, and succeeds on an up-to-date view if and only if there is space |
| SpscPointerRing.PopCallEffect | src/async_pipeline_benchmark.cc:215-222 | an uninterrupted `pop` with any view removes and returns the oldest value or leaves the queue alone |
| SpscPointerRing.SpscPointerRing.constructor | src/async_pipeline_benchmark.cc:206 | a new ring is empty and in the machine's initial state |
| SpscPointerRing.SpscPointerRing.TryPush | src/async_pipeline_benchmark.cc:207-214 | the in-place method is the machine's sequence of steps for any value the acquire load may return; its effect on the contents and its success condition |
| SpscPointerRing.SpscPointerRing.Pop | src/async_pipeline_benchmark.cc:215-222 | likewise for `pop`, with the value returned being the oldest one |
| Pipeline.StepKeepsMachineInv | src/async_pipeline_benchmark.cc:361-396 | every step of either thread keeps the pipeline invariant |
| Pipeline.UnwrapRun | src/async_pipeline_benchmark.cc:339-406 | every run of the pipeline on 64-bit words has one on counters behind it |
| Pipeline.RingIsReachable | src/async_pipeline_benchmark.cc:342-396 | the pipeline drives the ring only through the ring's steps, so all ring results hold in it |
| Pipeline.Conservation | src/async_pipeline_benchmark.cc:361-405 | at join, for every interleaving: iterations = accepted + dropped, accepted = completed + leftover, one hot sample per accepted and one worker sample per completed event, processed events are the accepted ones in order, and the checksum is their total |
| Pipeline.SamplesAreTimes | src/async_pipeline_benchmark.cc:368-391 | the recorded samples are the times of the successful pushes and of the processed events, in order |
| Pipeline.ChecksumCountsCell | src/async_pipeline_benchmark.cc:367-373 | the worker adds the cost of the event it popped: with one costly pool cell the checksum counts the events processed from that cell |
| Pipeline.ProcessedInOrder | src/async_pipeline_benchmark.cc:385-388 | without drops the i-th processed event is the one in pool cell `i & 1023` |
| Pipeline.NothingDropped | src/async_pipeline_benchmark.cc:385-393 | if iterations do not exceed the capacity nothing is dropped, however slow the worker and however stale the producer's view |
| Pipeline.LeftoverIsUnseen | src/async_pipeline_benchmark.cc:361-378 | at join the leftover is exactly what the worker's final empty pop did not see; it is empty if and only if that pop acquired the final head |
| Pipeline.LeftoverIsLater | src/async_pipeline_benchmark.cc:361-378 | in any joined run the leftover is exactly the accepted events that the worker's last head load had not seen: those accepted after it and, for a stale load, those it missed |
| PipelineRuns.EverythingCanBeLeftOver | src/async_pipeline_benchmark.cc:361-396 | for every iteration count there is a reachable joined state with nothing completed and min(iterations, capacity) events left over |
| PipelineRuns.EverythingCanBeCompleted | src/async_pipeline_benchmark.cc:361-396 | for every iteration count there is a reachable joined state with nothing dropped and everything completed, with and without draining |
| PipelineRuns.CompleteOnlyWithoutWork | src/async_pipeline_benchmark.cc:361-396 | every joined run completes all it accepts if and only if there are no iterations |
| Pipeline.DrainingLeavesNothing | src/async_pipeline_benchmark.cc:361-378 | a worker that pops until empty again after reading the flag leaves nothing, in any run |
| ProcessEvents.ProcessEvent | src/async_pipeline_benchmark.cc:272-291 | per mode the returned number is the length of what was written: frame with its header, line, both, or nothing; a failed serialization yields 0, leaves the header and does not touch the line |
| ProcessEvents.CostPerMode | src/async_pipeline_benchmark.cc:269-291 | the bytes an event is worth in each mode of the pipeline, equal for the synchronous and the asynchronous form of both |
| ProcessEvents.RunSync | src/async_pipeline_benchmark.cc:314-336 | the synchronous loop completes every iteration, keeps every sample, and its checksum is iterations times the length of frame and line modulo 2^64 |
| ProcessEvents.ChecksumCountsCompleted | src/async_pipeline_benchmark.cc:340-341 | with a pool of copies the worker's checksum is the completed count times the bytes of the mode modulo 2^64 |
| ProcessEvents.AsyncMatchesSync | src/async_pipeline_benchmark.cc:314-405 | in any run without drop and leftover the `async_both` checksum equals the `sync_both` checksum, iterations times the length of frame and line modulo 2^64 |
| Delimited.SplitOfJoin | src/async_pipeline_benchmark.cc:443-453 | splitting a join of separator-free fields gives the fields back |
| Delimited.JoinOfSplit | src/async_pipeline_benchmark.cc:443-453 | joining the pieces of any text gives the text back, and the pieces are separator-free |
| Delimited.Split | src/async_pipeline_benchmark.cc:443-453 | the program's loop computes that splitting, on commas |
| DecimalText.ParseInvertsToDecimal | src/async_pipeline_benchmark.cc:113-120 | reading back the decimal text of any integer gives that integer |
| DecimalText.Int64Length | src/async_pipeline_benchmark.cc:115-118 | a 64-bit integer has at most 20 characters |
| DecimalText.DecimalLength | src/async_pipeline_benchmark.cc:115-118 | the text has at most k digits if and only if the number is below 10^k, and one character more below zero: no leading zeros |
| EventFormat.CopyText | src/async_pipeline_benchmark.cc:52-56 | the cell holds at most 31 characters of the text and NULs behind them |
| EventFormat.StoredTextReads | src/async_pipeline_benchmark.cc:52-56 | a NUL-free text reads back from its cell unchanged up to 31 characters and cut there otherwise |
| EventFormat.Append | src/async_pipeline_benchmark.cc:107-120 | one append writes the separator (unless at the start) and the field in place, and nothing behind them |
| EventFormat.FormatInt | src/async_pipeline_benchmark.cc:99-105 | writes exactly the line of the event at the front of the buffer, within the buffer |
| EventFormat.FormatDecimal | src/async_pipeline_benchmark.cc:137-143 | likewise for the decimal event |
| EventFormat.FormatWide | src/async_pipeline_benchmark.cc:190-200 | likewise for the wide event |
| EventFormat.LineIsShort | src/async_pipeline_benchmark.cc:99-200 | lines have at most 242, 352 and 1920 characters for the three event shapes |
| EventFormat.BodyIsJoin | src/async_pipeline_benchmark.cc:107-120 | the written text is the '\|'-join of the fields with leading empty ones removed |
| EventFormat.SplitRecovers | src/async_pipeline_benchmark.cc:99-200 | splitting the text gives back the fields if and only if none holds a '\|' and the first is not empty (or is the only one) |
| EventFormat.IntLineRoundTrip | src/async_pipeline_benchmark.cc:99-121 | splitting and parsing a line recovers symbol and values, over all 64-bit integers, if and only if the symbol is not empty and holds no '\|' |
| EventFormat.DecimalLineRoundTrip | src/async_pipeline_benchmark.cc:137-143 | splitting a decimal line gives 11 pieces, the symbol and then the ten decimals in order, if and only if none holds a '\|' and the symbol is not empty |
| EventFormat.WideLineRoundTrip | src/async_pipeline_benchmark.cc:190-200 | splitting a wide line gives the 60 texts in order, if and only if none holds a '\|' and the first is not empty |
| EventFormat.LogSplits | src/async_pipeline_benchmark.cc:99-200 | lines written one after the other split at their newlines if and only if no text holds a newline |
| OrderStatistics.SelectedIsSorted | src/latency_benchmark.cc:145-149 | the selected element is the one at that index of the sorted values |
| OrderStatistics.NthElement | src/latency_benchmark.cc:147 | selection permutes the array and puts the k-th element in place, smaller ones before and greater ones after |
| OrderStatistics.Percentile | src/latency_benchmark.cc:145-149 | permutes the caller's samples and returns the sorted element at index min(n-1, floor(n*f)) |
| OrderStatistics.PercentileOfCopy | src/async_pipeline_benchmark.cc:300-305 | the same on a copy, and 0 for no samples |
| OrderStatistics.PercentileRank | src/latency_benchmark.cc:145-149 | counted in the samples as they came, at most floor(n*f) lie below the percentile and more than that at or below it |
| OrderStatistics.RankIsUnique | src/latency_benchmark.cc:145-149 | only one value has a given rank, so the counting determines the percentile |
| OrderStatistics.RunStatistics | src/latency_benchmark.cc:166-169 | after five successive reorderings p50, p90, p99, p99.9 and p99.99 have the ranks floor(50n/100), floor(90n/100), floor(99n/100), floor(999n/1000) and floor(9999n/10000) among the samples as recorded, the maximum is a sample with none above it, and all ascend |
| OrderStatistics.NearestRank | scripts/kafka_report.py:13-18 | in exact arithmetic the report's index is ceil(n*f)-1, one below the C++ index exactly when n*f is an integer and equal otherwise |
| SchemaRegistry.EscapeText | src/schema_registry_benchmark.cc:258-271 | the loop computes the escaping, character by character |
| SchemaRegistry.ScanOfEscape | src/schema_registry_benchmark.cc:258-271 | a JSON string reader (section 7 of RFC 8259) on escaped text gives the text back and stops at the closing quote if and only if the text has no control character other than newline, CR and tab |
| SchemaRegistry.RegistrationRoundTrip | src/schema_registry_benchmark.cc:283-285 | the same for the schema member of the registration body, stopping at the quote the program added |
| SchemaRegistry.RegistrationReads | src/schema_registry_benchmark.cc:283-285 | a JSON reader finds exactly two members in the registration body, schemaType = PROTOBUF and schema = the text, if and only if the text has no other control character |
| SchemaRegistry.EscapedHasNoId | src/schema_registry_benchmark.cc:258-281 | escaped text never contains `"id"` |
| SchemaRegistry.FromIdInQuoted | src/schema_registry_benchmark.cc:258-281 | with its quotes, an escaped text contains `"id"` if and only if it is `id` or ends in `"id` |
| SchemaRegistry.StoulReads | src/schema_registry_benchmark.cc:280 | conversion skips white space and an optional sign, reads the decimal up to the first non-digit, negates modulo 2^64, and fails from 2^64 on |
| SchemaRegistry.ResponseIdErrors | src/schema_registry_benchmark.cc:273-278 | the status is refused if and only if it is outside 200 to 299, and an accepted body as having no id if and only if `"id"` occurs nowhere in it |
| SchemaRegistry.ResponseIdReads | src/schema_registry_benchmark.cc:273-281 | for any 2xx body the result is the number behind the first colon, and any white space, after the first `"id"`, cut to 32 bits, hence right if and only if it is below 2^32 |
| SchemaRegistry.ResponseIdFirst | src/schema_registry_benchmark.cc:273-281 | for any 2xx status a body whose first member is the id is read right whatever follows, with white space anywhere |
| SchemaRegistry.StopsAtOffender | src/schema_registry_benchmark.cc:277 | over any list of members the scanner stops behind the first text that is `id` or ends in `"id`, and at the id member if there is none |
| SchemaRegistry.ResponseIdOfMembers | src/schema_registry_benchmark.cc:273-281 | the result is the reading of the member behind the first such text: its integer modulo 2^32, out of range from 2^64 on, not a number for a text |
| SchemaRegistry.ResponseIdIsRight | src/schema_registry_benchmark.cc:273-281 | for any 2xx status and any list of text and integer members before it, the id is returned if and only if no text is `id` or ends in `"id`, or the first such text is the last member before the id, or the member behind it is an integer that agrees with the id |
| SchemaRegistry.QuotelessText | src/schema_registry_benchmark.cc:487-488 | a text without quotes hides the id only if it is `id` |
| SchemaRegistry.PrefixCarriesId | src/schema_registry_benchmark.cc:162-167 | the six-byte prefix carries every 32-bit schema id in big-endian order |
| SchemaRegistry.FrameInPlace | src/schema_registry_benchmark.cc:176-179 | serializing behind the header yields prefix and payload; a failure yields size 0 and still writes the header |
| SchemaRegistry.FrameWithCopy | src/schema_registry_benchmark.cc:181-189 | copying header and payload yields the same frame; a failure yields size 0 and leaves the frame alone |
| KafkaRetry.RetryDecides | src/kafka_producer_benchmark.cc:130-142 | for every sequence of attempts: a first attempt without a payload throws the error left over unless that is a full queue; otherwise the first attempt that runs out of memory or meets a free place with a payload decides, and without one the call still retries; with the messages waiting at the end |
| KafkaRetry.CallInARun | src/kafka_producer_benchmark.cc:130-142 | for a call of a run, the exact condition for throwing an error that names none and the exact condition for retrying for ever |
| KafkaRetry.StuckAfterFullQueue | src/kafka_producer_benchmark.cc:132-141 | a serializer that works once, meets a full queue and fails from then on keeps the call retrying whatever the polls serve |
| KafkaProducer.RunIntoFullQueue | src/kafka_producer_benchmark.cc:132-167 | that call can be reached from a new producer by the run's own calls and polls |
| KafkaRetry.RetryEndsWithSpace | src/kafka_producer_benchmark.cc:130-142 | with a working serializer a full queue is met exactly once more often than leading polls serve nothing, the next attempt decides, and the call still retries only if no poll but the last served anything |
| KafkaRepetition.ServedReturns | src/kafka_producer_benchmark.cc:130-142 | the i-th call of a repetition returns if it meets no error and, once the queue may be full, some poll but the last serves a report |
| KafkaRepetition.FullQueueServes | src/kafka_producer_benchmark.cc:132-141 | a call with a working serializer that meets a full queue is served the reports of its first poll with any, and those only |
| KafkaRepetition.ShortRepetition | src/kafka_producer_benchmark.cc:162-175 | a repetition of up to 16384 calls, all accepted at once, is served the first report of the poll after call 0 and then the flush's, each with its own outcome |
| KafkaRepetition.ServedFinishes | src/kafka_producer_benchmark.cc:158-177 | a repetition is reported if no call meets an error, every call that may find the queue full has a poll that serves a report, and the flush has time for what the queue can hold |
| KafkaProducer.Producer.Enqueue | src/kafka_producer_benchmark.cc:112-128 | a message is refused with a full queue exactly when the messages in flight have reached the capacity |
| KafkaProducer.Producer.ProduceOnce | src/kafka_producer_benchmark.cc:133-135 | one attempt in either mode, its effect on the queue, the payloads and the last error |
| KafkaProducer.Producer.TryOnce | src/kafka_producer_benchmark.cc:132-141 | one round of the retry loop: the attempt, and the poll after a full queue |
| KafkaProducer.Producer.ProduceOwned | src/kafka_producer_benchmark.cc:117-128 | the payload is handed over if the message was accepted and freed otherwise, once, and nothing else changes hands |
| KafkaProducer.Producer.ProduceWithRetry | src/kafka_producer_benchmark.cc:130-142 | over any sequence of attempts nothing stays owned; every payload is freed or handed over once; a returning owned-mode call hands over exactly one; its outcome, the messages left in flight and the outcomes its polls served are those of the retry rule on the bounded queue |
| KafkaProducer.Producer.Deliver | src/kafka_producer_benchmark.cc:78-80 | one report takes one message of the running repetition out of flight and counts it if it failed |
| KafkaProducer.Producer.Poll | src/kafka_producer_benchmark.cc:140-167 | serves the first reports, one per message in flight, each with its own outcome; accepted = reported + in flight is kept |
| KafkaProducer.Producer.Flush | src/kafka_producer_benchmark.cc:171-173 | succeeds if and only if nothing is left in flight |
| KafkaProducer.Producer.ProduceAndPoll | src/kafka_producer_benchmark.cc:163-167 | one call and the poll after every 16384th, with exactly the outcomes they are served |
| KafkaProducer.Producer.ProduceAll | src/kafka_producer_benchmark.cc:162-168 | all calls of a repetition up to the first that fails, with exactly the outcomes they are served |
| KafkaProducer.Producer.RunRepetition | src/kafka_producer_benchmark.cc:158-177 | the reported error count is the number of failures among the reports served by the retry polls, the occasional polls and the flush of this repetition, one report for each message; it is reported exactly when all calls return and the flush empties the queue; no last error is left over |
| KafkaProducer.Producer.Run | src/kafka_producer_benchmark.cc:158-188 | over all repetitions of a new producer every reported count is determined by its own repetition's script, and the run stops at the first repetition that cannot finish |
| EncodeThreads.StepKeepsInv | src/concurrency_benchmark.cc:77-94 | every step of any worker keeps the invariant of the run |
| EncodeThreads.MutualExclusion | src/concurrency_benchmark.cc:83-93 | at most one worker is inside the shared-buffer section and at most one inside the checksum section, for any number of threads |
| EncodeThreads.NoEarlyStart | src/concurrency_benchmark.cc:74-79 | nobody encodes before all workers and the main thread have reached the barrier |
| EncodeThreads.SharedEncodeIsLocked | src/concurrency_benchmark.cc:83-85 | in the mode with the shared buffer whoever serializes holds its mutex |
| EncodeRuns.RunCounts | src/concurrency_benchmark.cc:80-90 | over any run the workers' counters are the numbers of serializations made and of those that succeeded, counted in the run's steps |
| EncodeRuns.ChecksumAtJoin | src/concurrency_benchmark.cc:80-97 | at join exactly `iterations` serializations have been made, and the checksum is bytes times the number of them that succeeded, modulo 2^64, in all modes and interleavings |
| EncodeRuns.FullChecksumAtJoin | src/concurrency_benchmark.cc:57-97 | when every serialization step of a run succeeds the checksum at join is iterations * bytes modulo 2^64 |
| EncodeRuns.RunIsBounded | src/concurrency_benchmark.cc:77-97 | no run is longer than five steps per iteration, six per worker and one for the main thread |
| EncodeRuns.RunCanFinish | src/concurrency_benchmark.cc:77-97 | any run, however far, can be continued until all workers have finished |
| EncodeRuns.FullRun | src/concurrency_benchmark.cc:57-97 | for every accepted configuration there is a joined run with `iterations` successful serializations and that checksum |
| EncodeThreads.NoDeadlock | src/concurrency_benchmark.cc:77-97 | until all workers have finished some thread can take a step |
| KafkaReport.ValidateRows | scripts/kafka_report.py:30-47 | accepts exactly the complete series in order, and says which check failed first |
| KafkaReport.SeriesIsComplete | scripts/kafka_report.py:30-47 | a list is accepted if and only if its count and iterations agree and its repetition numbers ascend within 1 to the count; then each of them occurs exactly once, in order |
| KafkaReport.Merge | scripts/merge_kafka_results.py:23-51 | succeeds exactly when there are files, all headers agree and every file is a complete series; the result is their concatenation |
| KafkaReport.MergedRowsAt | scripts/merge_kafka_results.py:23-51 | in merged files the ten rows of file i are the rows from 10 * i on, in order |
| KafkaReport.Group | scripts/kafka_report.py:64-67 | every group holds the rows of its configuration in order |
| KafkaReport.GroupingPermutes | scripts/kafka_report.py:64-67 | grouping is a permutation: a row keeps its multiplicity in its own group and occurs in no other |
| KafkaReport.Report | scripts/kafka_report.py:57-78 | goes ahead exactly when there are rows and every configuration is a complete series |
| KafkaReport.MergedReportAccepts | scripts/merge_kafka_results.py:23-66 | merged files of one configuration each are accepted by the report if and only if no two carry the same configuration |
| Decimals.TextDenotesScaledValue | src/representation_benchmark.cc:29-35 | over all 64-bit indices the text is the decimal of the scaled value if and only if the number behind the zeros is zero or has two digits (indices up to 82, and those that wrap to such a number) |
| Decimals.TextSplitsAtPoint | src/representation_benchmark.cc:29-35 | the whole text splits at its point into two decimal parts that denote the scaled value if and only if index + 17 on 64 bits is zero or has two digits |
| Decimals.Decimal128Bytes | src/representation_benchmark.cc:37-44 | the 16 bytes denote the scaled value, least significant first, the upper eight zero |

## Left out

- The full C++ memory model: staleness of the two indices and of the flag is modelled, reordering beyond that is not.
- The latch and start flag before the two loops of `run_async`: every run starts with both threads at their loops.
- Progress of the pipeline: a thread may be delayed for ever, so nothing is said about termination of its loops.
- The protobuf, protobuf-c and JSON encoders and `src/encode_benchmark.cc`: serializers are abstract functions that yield the payload or fail; what a failing serializer leaves in its buffer is not modelled.
- librdkafka, libcurl, sockets and TLS: librdkafka is a queue, a last-error cell, poll and flush, driven by a script of the environment's choices; a call that would retry for ever ends with that script.
- KafkaProducer.Producer.Enqueue: librdkafka is not in the repository; assumed of it are a queue of fixed positive capacity whose places are freed by delivery reports, a full queue as the first reason to refuse, and a successful call that leaves no last error.
- KafkaProducer.Producer.RunRepetition: the checksum of accepted bytes, which is `iterations * bytes` in every reported repetition.
- Clocks, measured times, throughput and floating point: samples are arbitrary numbers and fractions exact rationals.
- OrderStatistics.NthElement: stands for the library's `std::nth_element`, whose own algorithm is not in the repository.
- EncodeThreads: the bytes of the shared buffer are not modelled, only who may write them.
- SchemaRegistry.ResponseIdIsRight: members before the id that are nested, fractions, booleans or null, and text escaped otherwise than the program escapes it.
- SchemaRegistry: the string-assembly frame (the third of the three paths), which concatenates the same prefix and payload.
- KafkaReport: rows whose iteration or repetition cells are not integers, and CSV, metadata and Markdown text.
- `parse_args`, mode tables, message setters, fixed test values, shell scripts and stored results: one-branch facts.
