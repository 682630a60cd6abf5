# Kafka order pipeline: the per-message protocols, in Dafny

This project models the main loops of a small Kafka tutorial pipeline and proves their
routing and ordering rules. Each loop reads records one at a time and decodes them. It then
writes the record on or diverts it to the dead-letter queue (DLQ), and commits.

- **Processor** (`cmd/processor/main.go`). Reads orders from `orders`, adds their tax and
  writes the enriched record to `orders-taxed`. Values that do not decode, and writes that
  fail, go to the DLQ.
- **DLQ envelope and Send** (`internal/dlq/dlq.go`). The `FailedMessage` envelope. `Send`
  makes one best-effort write to `orders-dlq`, keyed by the source topic.
- **Reporter** (`cmd/reporter/main.go`). Adds each decoded record's tax, in cents, to an
  unsigned 64-bit counter.
- **Consumer** (`cmd/consumer/main.go`). Picks its topic from the environment and commits
  the records that parse.
- **DLQ viewer** (`dlq_viewer.py`). Shows each envelope and asks the operator. On an answer
  of "r" it republishes the original payload to `orders`. Then it commits.

The broker is not modelled. Each loop instead takes its inputs as sequences and oracles:
- `ReadOutcome` values: a message with its offset and value, or a read error. A value is a
  Go `[]byte` (`Wire.GoBytes`), so it can be nil: kafka-go, and kafka-python in the viewer,
  hand over a null record's value as nil or None;
- abstract codecs;
- the outcome of each write or commit;
- the clock;
- the operator's answers.

Each loop is a method that returns its *trace*: the actions it takes, in order (`Log.Action`).
- Read and Commit are the loop's bookkeeping.
- Write, DlqSend, Add, Prompt and Publish are its side effects.
- Stop marks where the loop ends.

Each method's `ensures` equates its trace with a recursive specification function `Run`.
Lemmas about `Run` state the rules the code follows. Stating them over projections of the
trace (`Log.Filter`) keeps them precise: exactly one commit, after the side effect, and
nothing after a read error.

Module layout:
- `wire.dfy`: bytes, `int64`, `Option`/`Result`, UTF-8.
- `json.dfy`: JSON values and the abstract codecs, with their round-trip predicate.
- `dlq.dfy`: the DLQ package.
- `orders.dfy`: the order records.
- `log.dfy`: read outcomes, actions and trace projections.
- `processor.dfy`, `reporter.dfy`, `consumer.dfy`, `viewer.dfy`: one module per program.
- `pipeline.dfy`: what a null record does as it passes from the processor to the viewer.

Points where the code is easy to misread:
- **Commit inside the read.** The Go loops call kafka-go's `ReadMessage`. With a GroupID it
  commits the offset before it returns, although the explicit `CommitMessages` calls and
  `CommitInterval: 0` show a fetch-then-commit intent. `Process`, `Report` and `Consume`
  model that intended loop, with `FetchMessage`. Each module's `HandleAsWritten` keeps the
  iteration as written, with `ReadMessage`. See Findings.
- **A failed commit inside the read.** When the commit inside `ReadMessage` fails, it
  returns the error instead of the message. The as-written loops then end as on a read
  error: the `break` at `cmd/processor/main.go:61` and `cmd/consumer/main.go:56`, and the
  `return` at `cmd/reporter/main.go:59`. `Log.ReadMessage` and each `HandleAsWritten` take
  that commit's outcome as a parameter. The errors of the explicit `CommitMessages` calls
  are ignored, so in the fetch-then-commit loops a failed commit does not end the loop.
- **DLQ failure mode.** `Send` is best-effort only: it discards the write's error and there
  is no fail-closed mode.
- **Rounding cents.** The reporter rounds cents with `math.Round`, half away from zero. The
  model keeps that conversion abstract.
- **Null records.** The processor fails to decode a nil value and sends it to the DLQ.
  `json.Marshal` writes a nil `[]byte` payload as `null`. The viewer's
  `base64.b64decode(None)` then raises TypeError, which the `except KeyError` in
  `pretty_print` does not catch. So the viewer ends its run on that record without
  committing it, and it stops there again on every restart. A null record read by the
  viewer itself ends its run in the same way: the handler's `msg.value[:200]` raises.

The as-written behaviour behind each finding is kept as its own member, with a lemma that
exhibits it. The loops themselves use the corrected definitions: `FetchMessage` instead of
`ReadMessage`, and the `str` key `"retry"`.

## Model

| member | source | states |
|---|---|---|
| Wire.Utf8OfAscii | dlq_viewer.py:37 | `str.encode()` of ASCII text is one byte per character, so the key "retry" serialises to the bytes `retry` |
| Dlq.Envelope | internal/dlq/dlq.go:11-16 | the encoded FailedMessage has exactly the four members source_topic, error, payload, ts; ts is the timestamp; the payload is null exactly when the failed value was nil, and otherwise, under the codec round trip, it decodes back to the original bytes |
| Dlq.Record | internal/dlq/dlq.go:27-31 | the record Send writes is keyed by the source topic, and its value parses back to the whole envelope |
| Dlq.Writer.NewWriter | internal/dlq/dlq.go:18-24 | a DLQ writer targets "orders-dlq" and has written nothing |
| Dlq.Writer.WriteMessages | internal/dlq/dlq.go:28-31 | one call is one attempt; the record is appended only if the broker accepts it, and the error reports a refusal |
| Dlq.Send | internal/dlq/dlq.go:26-32 | exactly one write attempt of the envelope record; nothing is returned, so the caller continues whatever the outcome |
| Processor.Enrich | cmd/processor/main.go:76-80 | ID and Amount are copied unchanged; Tax is a function of Amount alone |
| Processor.HandleEnds | cmd/processor/main.go:58-103 | an iteration starts with its read, ends with its commit and never stops the loop, so a failed commit does not end it |
| Processor.HandleBookkeeping | cmd/processor/main.go:58-103 | each message read is committed exactly once, after its read |
| Processor.HandleWrites | cmd/processor/main.go:64-87 | an undecodable value is never written; a decoded one is written once, to "orders-taxed" with key "tax" and the encoding of its enrichment |
| Processor.HandleDlqSends | cmd/processor/main.go:65-94 | one DLQ send from "orders" with "json_unmarshal" when the value does not decode, one with "produce_failed" when the write fails, none otherwise; each carries the raw bytes read and the clock |
| Processor.ReadErrorEndsRun | cmd/processor/main.go:58-62 | the trace is the messages' actions up to the first read error, then Stop; nothing after that error affects it |
| Processor.StopOnlyOnReadError | cmd/processor/main.go:57-104 | the loop stops exactly when some read fails |
| Processor.CommitsFollowReads | cmd/processor/main.go:57-104 | the reads and commits of a run are read m, commit m for each message before the first read error, in read order |
| Processor.WritesCarryDecodedOrders | cmd/processor/main.go:64-87 | every write in a run carries the enriched encoding of an order decoded from a message read, and that write's outcome |
| Processor.DlqSendsCarryRawBytes | cmd/processor/main.go:65-94 | every DLQ send in a run carries the source topic, the raw bytes and the clock of a message read; its error tag is "json_unmarshal" iff that value did not decode, and "produce_failed" iff it decoded and its write failed |
| Processor.WritesExactly | cmd/processor/main.go:57-104 | the writes of a run are exactly one per decodable message before the first read error, in read order, each the encoded enrichment of its order with that write's outcome |
| Processor.DlqSendsExactly | cmd/processor/main.go:57-104 | the DLQ sends of a run are exactly, in read order before the first read error, one "json_unmarshal" send per undecodable message and one "produce_failed" send per failed write, each with the raw value and the clock |
| Log.ReadMessage | cmd/processor/main.go:58-62 | ReadMessage reads, then commits; it ends the loop exactly when that commit fails |
| Processor.CommitBeforeSideEffectAsWritten | cmd/processor/main.go:58-74 | with ReadMessage as called, the commit comes before the write or DLQ send, and the message is committed twice; when the commit inside ReadMessage fails, the loop ends with the message neither written nor sent to the DLQ |
| Processor.Process | cmd/processor/main.go:57-104 | the loop's trace is Run over the read outcomes |
| Reporter.AddWrapping | cmd/reporter/main.go:70 | uint64 addition: the exact sum below 2^64, the sum minus 2^64 otherwise |
| Reporter.HandleEnds | cmd/reporter/main.go:56-74 | an iteration starts with its read and never stops the loop; a decoded record's add precedes its commit, which is last |
| Reporter.HandleFilters | cmd/reporter/main.go:62-74 | a record is read once; an undecodable one adds nothing and is not committed; a decoded one adds its cents once and is committed once |
| Reporter.AdditionsAreDecodedCents | cmd/reporter/main.go:55-75 | the adds of a run are the cents of the decodable records before the first read error, in read order |
| Reporter.CommitsOnlyDecoded | cmd/reporter/main.go:62-74 | the commits of a run are those of the decodable records before the first read error, in read order |
| Reporter.EachDeliveredReadOnce | cmd/reporter/main.go:55-75 | each record before the first read error is read once, in read order |
| Reporter.StopOnlyOnReadError | cmd/reporter/main.go:55-75 | the loop returns exactly when some read fails; a bad record or a failed commit does not end it |
| Reporter.ReadErrorEndsRun | cmd/reporter/main.go:56-60 | after a read error nothing more is added or committed |
| Reporter.AddKeepsModulus | cmd/reporter/main.go:70 | the wrapping add keeps the counter equal to the sum of the cents added, modulo 2^64 |
| Reporter.CounterNonDecreasing | cmd/reporter/main.go:68-70 | while the sum stays below 2^64, the counter after a prefix of the input never exceeds the counter after a longer one |
| Reporter.HandleMessage | cmd/reporter/main.go:62-74 | the body for one record: its actions, and a counter advanced by a wrapping add of its cents only if it decodes |
| Reporter.Report | cmd/reporter/main.go:55-75 | the trace is Run; the final counter is the sum of the cents of the decodable records before the first read error, modulo 2^64 |
| Reporter.CommitBeforeAddAsWritten | cmd/reporter/main.go:56-72 | with ReadMessage as called, the commit precedes the add, and an undecodable record is committed; when that commit fails, the loop returns without adding |
| Consumer.TopicFor | cmd/consumer/main.go:21-24 | the topic is TOPIC when non-empty and "orders" otherwise |
| Consumer.HandleFilters | cmd/consumer/main.go:53-71 | a message is read once and committed once exactly when it parses |
| Consumer.CommitsExactlyParsed | cmd/consumer/main.go:52-72 | the commits of a run are those of the parsable messages before the first read error, in read order |
| Consumer.EachDeliveredReadOnce | cmd/consumer/main.go:52-72 | each message before the first read error is read once, in read order |
| Consumer.StopOnlyOnReadError | cmd/consumer/main.go:52-72 | the loop breaks exactly when some read fails; a failed commit does not end it |
| Consumer.StopIsLast | cmd/consumer/main.go:53-57 | nothing follows the break on a read error |
| Consumer.Consume | cmd/consumer/main.go:52-72 | the loop's trace is Run over the read outcomes |
| Consumer.UnparsedCommittedAsWritten | cmd/consumer/main.go:53-63 | with ReadMessage as called, a message that does not parse is committed all the same, and the loop ends exactly when that commit fails |
| Viewer.TrimStartSpec | dlq_viewer.py:74 | lstrip leaves a suffix that does not start with whitespace and drops only whitespace |
| Viewer.TrimEndSpec | dlq_viewer.py:74 | rstrip leaves a prefix that does not end with whitespace and drops only whitespace |
| Viewer.LowerSpec | dlq_viewer.py:74 | lower() of ASCII maps each character and keeps the length |
| Viewer.RetryIff | dlq_viewer.py:74 | an answer retries iff it is one "r" or "R" with only whitespace around it (both directions) |
| Viewer.NotRetryIfTwoSolid | dlq_viewer.py:74 | an answer with two non-whitespace characters never retries |
| Viewer.RetryExamples | dlq_viewer.py:74 | " R " and "\tr\n" retry; "", "rr" and "retry" do not |
| Viewer.RetryNeverSentAsWritten | dlq_viewer.py:75-85 | with key b"retry", the serializer raises inside the try and nothing is ever republished |
| Viewer.RepublishShape | dlq_viewer.py:75-85 | the retry block sends nothing exactly when the payload is missing or does not decode or `send` raises before queuing, and otherwise exactly one record to "orders", keyed "retry", carrying the decoded payload |
| Viewer.AnsweredShape | dlq_viewer.py:70-89 | an answered record is read and committed once, the commit last, whatever the retry's outcome; it is prompted once, and republished exactly when the answer is a retry, the payload decodes and `send` queues it |
| Viewer.StepAt | dlq_viewer.py:61-89 | after a record the loop goes on from an answer position no earlier than before and within the answers |
| Viewer.UnparsedStep | dlq_viewer.py:62-68 | an unparsable envelope is read and committed, with no prompt and no republish |
| Viewer.CrashStep | dlq_viewer.py:62-73 | a null record, an envelope pretty_print cannot show, or a missing answer ends the run after the read and before any commit |
| Viewer.ShownStep | dlq_viewer.py:70-89 | a shown envelope takes the next answer, is committed once, and is republished as RetryPublish says: at most once, only on a retry |
| Viewer.AfterCommitFacts | dlq_viewer.py:89 | a failed commit ends the run right after it; a successful one goes on |
| Viewer.StepStops | dlq_viewer.py:61-94 | a record ends the run exactly when its actions contain Stop, which is then last and occurs once |
| Viewer.StepBookkeeping | dlq_viewer.py:61-89 | a record reaching its commit is read then committed; one that ends the run earlier is only read; the run goes on only past a committed record |
| Viewer.StepPrompts | dlq_viewer.py:70-74 | a record uses one answer exactly when its envelope is shown |
| Viewer.StepPublishes | dlq_viewer.py:74-85 | a record's publishes are exactly RetryPublish: its decoded payload when it is shown with a retry answer and `send` queues it, nothing otherwise |
| Viewer.CommitsFollowReads | dlq_viewer.py:61-89 | reads and commits of a run pair up record by record in order; a run that breaks off before a commit leaves only that record uncommitted |
| Viewer.AnswersInOrder | dlq_viewer.py:73 | the prompts of a run are a contiguous run of the answers, in order, each used once |
| Viewer.PublishesAreRetriedPayloads | dlq_viewer.py:74-85 | everything published is the decoded payload of a record read, sent to "orders" keyed "retry", and only after some retry answer |
| Viewer.PublishesExactly | dlq_viewer.py:61-89 | the publishes of a run are exactly Publishes: record by record in read order, each record's own RetryPublish, for as long as the run goes on |
| Viewer.StopIsLast | dlq_viewer.py:60-94 | a run stops at most once, as its last action |
| Viewer.RetriedDlqRecordRepublishesPayload | dlq_viewer.py:76-81 | a record written by Dlq.Send parses back to its envelope; when the failed value was a slice, answered "r" it is shown and, when `send` queues it, republished to "orders" with exactly the bytes that failed; when it was nil, pretty_print raises on it |
| Viewer.NullPayloadRecordHaltsViewer | dlq_viewer.py:47-54 | a DLQ record made from a null record ends the viewer's run right after its read: it is never committed, prompted or republished |
| Processor.NullRecordGoesToDlq | cmd/processor/main.go:65-73 | when the decoder rejects a nil value, as json.Unmarshal does, the record is not written and goes to the DLQ once, as "json_unmarshal", with a nil payload |
| Pipeline.NullRecordHaltsViewer | cmd/processor/main.go:65-73 | a null record on "orders" is sent to the DLQ with a nil payload, and the viewer's run ends on the record Send wrote for it, before committing it |
| Viewer.HandleRecord | dlq_viewer.py:62-89 | the loop body for one record computes that record's step |
| Viewer.View | dlq_viewer.py:61-89 | the viewer's trace is Run over the records and answers |

## Left out

- Floating point. Go's `Amount * 0.2` is the abstract `tax: real -> real`. `uint64(math.Round(Tax * 100))` is the abstract `cents: real -> uint64`.
- Codecs. `encoding/json`, Python's `json` and `base64`, and `bytes.decode()` are abstract fields of `Json.Codec`. The property that what Go writes Python reads back is the predicate `RoundTrips`, which is assumed only where it is stated.
- Logging, `print` and the text `pretty_print` shows. Whether `pretty_print` raises is modelled.
- Consumer.HandleFilters: does not state that the log line at `cmd/consumer/main.go:65` precedes the commit, because logging is not modelled.
- Signal handling, context cancellation, the reporter's ticker goroutine and the atomicity of `atomic.AddUint64`. Shutdown appears only as a read error that ends the loop, and the counter is a single-threaded value.
- The viewer's `KeyboardInterrupt` exit and the closing of the consumer and producer in `finally`.
- Broker semantics: partitions, batching, the commit cursor and redelivery after restart. A commit is an action in the trace. The errors of the explicit `CommitMessages` calls are ignored, so the loops' runs take no commit outcomes; the commit inside `ReadMessage` is the as-written members' `commitOk` parameter.
- The clock. `time.Now().UnixMilli()` is an input indexed by read position.
- cmd/producer/main.go is not part of this model.
- Viewer.View: Publish means `producer.send` queued the record. A `send` that raises before queuing (a key the serializer rejects, or a timeout waiting for metadata or buffer space) is caught and publishes nothing; the timeout is the input `sendOk`. Asynchronous delivery failures and `flush` errors are not modelled; they are caught or lost after queuing and would not change the trace.
- Viewer.LowerSpec: `LowerChar` lowers only `A`–`Z` and keeps the length. Python's `lower()` also lowers other letters, and can lengthen a string (`'İ'.lower()` has two characters). No other character lowers to a string containing "r", and a longer result only has more non-whitespace, so `IsRetry` is exact.
- Processor.Process: the trace records each `dlq.Send` call, not the DLQ write's outcome, which `Send` discards. The write itself is modelled by `Dlq.Send` on a `Dlq.Writer`.

## Findings

| source | as written | input that shows it | evidently intended | confidence | as-written member | corrected member |
|---|---|---|---|---|---|---|
| cmd/processor/main.go:58 | `ReadMessage` on a reader with a GroupID commits the offset before returning, so the commit at 72, 95 or 99 comes second | any message: its commit precedes its write or DLQ send, and a crash in between loses the message | fetch without committing (`FetchMessage`) and commit only after the side effect, as `CommitInterval: 0` and the explicit commits show | not executed | Processor.CommitBeforeSideEffectAsWritten | Processor.CommitsFollowReads |
| cmd/reporter/main.go:56 | `ReadMessage` commits before returning, so the reporter commits records it skips | a record that does not decode: committed, though the loop `continue`s before its own commit | commit only decoded records, after their add | not executed | Reporter.CommitBeforeAddAsWritten | Reporter.CommitsOnlyDecoded |
| cmd/consumer/main.go:53 | `ReadMessage` commits before returning, although line 33 says auto-commit is disabled | a message that does not parse: committed all the same | commit only the messages that parse | not executed | Consumer.UnparsedCommittedAsWritten | Consumer.CommitsExactlyParsed |
| dlq_viewer.py:79 | `key=b"retry"` goes through `key_serializer=lambda k: k.encode() if k else None`; `bytes` has no `encode`, so `send` raises AttributeError, which the `except` at 84 catches | any envelope with a decodable payload, answered "r": nothing is republished | pass the key as the `str` "retry", serialised to the bytes `retry` | not executed | Viewer.RetryNeverSentAsWritten | Viewer.RetriedDlqRecordRepublishesPayload |
