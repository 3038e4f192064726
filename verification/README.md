# Paryty agent and intelligence service: verified cores

This project models the stateful and arithmetic cores of Paryty in Dafny and proves what they
guarantee over every input and every run. `dafny verify dfyconfig.toml` checks all of it.

| files | what they model |
|---|---|
| `EdgeBufferModel`, `EdgeBufferLemmas`, `EdgeBuffer`, `DeliveryRuns`, `FlightRuns`, `FlushGuarantees`, `Restarts`, `Payloads` | the edge buffer (in-memory deque, SQLite spill table) and the flush loop that drains it |
| `MemoryCounter` | the buffer's byte counter under concurrency |
| `FlowControl`, `FlowControlRuns` | the outgoing priority queue |
| `Sni` | server-name extraction from a TLS ClientHello |
| `DbInspector`, `DbDecoders` | request/response correlation and the Redis, PostgreSQL and MySQL decoders |
| `LruCache` | the bounded detector cache |
| `TimeSeries`, `Weaving` | gap filling and downsampling |
| `EnsembleWeights` | the forecast ensemble's weights |
| `Histogram`, `OrderStatistics` | the Go SDK's bucketed quantiles |
| `ConceptDrift` | Page-Hinkley, Kolmogorov-Smirnov and ADWIN detectors |
| `ModelStore`, `FileNames`, `Decimal` | the versioned model store and its file names |
| `Basics`, `Sums` | shared vocabulary |

Objects the source updates in place are classes whose methods state the whole new state as a function
of the old one; the run theorems are lemmas about those functions. Conventions: floats are reals;
the answer of a network send, a random draw, a clock reading, whether an insert into the table works, and
the numeric formulas of libraries are parameters, so every theorem holds for all of them. A send counts as
delivered when the send call reports success.

## Where the code and its documentation differ

- `edge_buffer.rs` promises "zero data loss". A flush drains memory before it sends, so a refused
  send loses the entries that were only in memory from that point on. `FlushLosesNothingIff` says exactly
  what a flush loses and when nothing, `RefusedSendLosesMemory` is the smallest run that loses an entry, and
  `NoDataLossIff` gives the condition over a whole run: no write finds memory full with something in it and no
  way to spill, and no flush is refused a send while memory entries are still to go. `NoDataLossInFlightIff` is the same
  with other actions between the sends. A restart loses exactly what is in memory (`RestartLosesMemory`), and
  `NoDataLossOverLivesIff` is the condition over any number of lives.
- `edge_buffer.rs:44-45` calls sequence numbers unique, for deduplication. Every restart starts numbering over at 1.
  Over any number of lives on one database, a number names one entry at most, among all there ever were, if and only if
  no two lives get to it (`UniqueOverLivesIff`); so all numbers are unique exactly when at most one life writes
  anything (`AllUniqueOverLivesIff`). `DeliveredInBothLives` is a run that delivers two entries numbered 1, and
  `RestartReusesNumbers` one that leaves two unsent rows with number 1. `UniqueInSecondLifeIff` narrows the question
  to what the second life inherits, holds and lets go.
- Rows on their way in a flush can be expired or deleted before they are sent. Such a row is sent all the same, so its
  number is both delivered and expired or deleted: exactly then (`InTwoPlacesIff`), and there are such runs (`LateSend`).
  Nothing is delivered twice (`DeliveredAtMostOnce`).
- `write` adds to the byte counter after releasing the deque's lock, so the counter can wrap below zero
  (`CounterCanWrap`); `CounterExactIff` says when it is exact. A writer that reads a wrapped counter evicts the whole deque
  although its entry would fit (`WrapEvictsAll`); `EvictsNothingIff` says when it evicts nothing.
- `ensemble.py` says weights are clamped to the configured range. The last renormalisation can leave the range,
  and the schema accepts a minimum above the maximum; `WeightsWithinBoundsIff` gives the exact condition and `ThreeModelBounds` how far it can go by default.
- `fill_gaps` caps the points put into one gap; `GapsClosedIff` and `FillIdempotentIff` say exactly which
  gaps it can close.
- `KSDetector` is meant to report windows from different distributions. Its p-value is the constant 0 exactly when
  the windows have the same empirical distribution and the constant 1 exactly when they do not overlap, so the former
  are always reported and the latter never (`EndsAreReversed`): a constant stream drifts (`ConstantStreamDrifts`),
  a jump to a higher value does not (`JumpGoesUnreported`).
- `parse_pg_error_response` advances by the length of the decoded text, so text that decoding lengthens (invalid
  UTF-8) in an earlier field shifts the scan. `PgErrorOutcome` gives the result for any fields, `PgErrorRoundTrip` the
  exact condition on the fields for the message to be reached, and `InvalidTextHidesMessage` two lists of fields, one that
  hides it and one where the scan falls back into step.
- Redis value lines are cut at CRLF and announced lengths are ignored: command and key survive exactly when neither holds
  a CRLF (`RespRoundTrip`); `RespKeyLost` is a key that does not.
- `parse_sni_extension` looks at the first entry of the name list only, so an entry of another type ahead of the
  host name hides it (`HostFoundIff`, `OtherTypeHidesHost`).
- `ADWINDetector` does not subtract values its bounded window drops. `ReportedMean` says when the mean is still the
  window's: whenever nothing was dropped since the last cut, and for positive values only then.
  `OverflowMisreportsMean` runs any detector past its window: it reports a mean above every value it was given.
- `model_store.py` keeps older versions "with an incrementing suffix", but a backup is the current file of any metric
  whose name looks like it: after two saves for one metric, a load for the same name with "_v1" behind it finds the
  first artifact (`FoundUnderAnotherName`, `LooksLikeBackup`). `LoadFinds` says what any load finds after any saves.
- The store's files are called "{model_name}_{metric_name}"; either name may hold an underscore, so two pairs of names can
  share a file (`NamesCanCollide`); `BothNamesMatter` says when they do with one name in common.
- `sanitize_filename_component` is not idempotent: the cut to 100 characters can leave a dot or an underscore at the end,
  which sanitising again removes (`SanitizeIdempotentIff`, `CutBehindUnderscore`).

## Model

| member | source | states |
|---|---|---|
| EdgeBufferModel.EvictionCount | paryty-v1.0/agent/src/communication/edge_buffer.rs:297-304 | the prefix evicted to make room is the shortest after which the entry fits, or everything |
| EdgeBufferModel.ExpiredFront | paryty-v1.0/agent/src/communication/edge_buffer.rs:616-634 | exactly the expired entries before the first live one are popped |
| EdgeBuffer.EdgeBuffer.constructor | paryty-v1.0/agent/src/communication/edge_buffer.rs:227-249 | a new buffer is empty, numbers from 1, counters at zero |
| EdgeBuffer.EdgeBuffer.EvictOldest | paryty-v1.0/agent/src/communication/edge_buffer.rs:602-613 | removes exactly the oldest entry and its bytes, or reports that there is none |
| EdgeBuffer.EdgeBuffer.EvictExpiredMemory | paryty-v1.0/agent/src/communication/edge_buffer.rs:618-634 | the popping loop removes the expired front and keeps byte and entry counters exact |
| EdgeBuffer.EdgeBuffer.EvictExpiredSqlite | paryty-v1.0/agent/src/communication/edge_buffer.rs:642-662 | a row is still there afterwards if and only if it was there and is not older than the TTL cutoff, sent or not; without a database nothing changes |
| EdgeBufferModel.Aged | paryty-v1.0/agent/src/communication/edge_buffer.rs:648-655 | the rows stamped before the cutoff, and no others |
| EdgeBuffer.EdgeBuffer.EvictExpired | paryty-v1.0/agent/src/communication/edge_buffer.rs:616-639 | expires memory, then the table |
| EdgeBuffer.EdgeBuffer.MakeRoom | paryty-v1.0/agent/src/communication/edge_buffer.rs:297-304 | the eviction loop terminates and removes the shortest prefix that makes room |
| EdgeBuffer.EdgeBuffer.SpillToSqlite | paryty-v1.0/agent/src/communication/edge_buffer.rs:669-690 | appends one unsent row with the next id and priority 2 |
| EdgeBuffer.EdgeBuffer.Place | paryty-v1.0/agent/src/communication/edge_buffer.rs:272-320 | once expiry is done: spill when memory is full and the insert works, else evict the shortest prefix and append |
| EdgeBuffer.EdgeBuffer.Write | paryty-v1.0/agent/src/communication/edge_buffer.rs:256-326 | the whole new state of a write: a fresh number, expiry, then placing the entry |
| EdgeBuffer.EdgeBuffer.Read | paryty-v1.0/agent/src/communication/edge_buffer.rs:331-345 | hands out and forgets the oldest `count` entries |
| EdgeBuffer.EdgeBuffer.DrainSqlitePending | paryty-v1.0/agent/src/communication/edge_buffer.rs:696-757 | min(1000, p) of the p unsent rows, by priority, then creation time, then id, and none left out comes before one taken, each with its number, data and id; the table is unchanged |
| EdgeBufferLemmas.OrderBySorts | paryty-v1.0/agent/src/communication/edge_buffer.rs:705-712 | the ordering clause puts the rows of a table into drain order and loses none |
| EdgeBufferLemmas.BatchTakesFirst | paryty-v1.0/agent/src/communication/edge_buffer.rs:705-712 | whatever the clocks did, a batch is the first thousand unsent rows in drain order |
| EdgeBuffer.EdgeBuffer.Drain | paryty-v1.0/agent/src/communication/edge_buffer.rs:482-512 | memory in FIFO order, then the pending batch; memory is left empty |
| EdgeBuffer.EdgeBuffer.DrainByType | paryty-v1.0/agent/src/communication/edge_buffer.rs:518-539 | hands out the entries of one type in order and keeps the others in order |
| EdgeBuffer.EdgeBuffer.Partition | paryty-v1.0/agent/src/communication/edge_buffer.rs:524-531 | the pass over the deque sorts every entry to one side or the other, in order |
| EdgeBuffer.EdgeBuffer.MarkSent | paryty-v1.0/agent/src/communication/edge_buffer.rs:545-557 | marks exactly the row with that id |
| EdgeBuffer.EdgeBuffer.MarkRetry | paryty-v1.0/agent/src/communication/edge_buffer.rs:563-574 | raises the retry count of exactly the row with that id |
| EdgeBuffer.EdgeBuffer.DeleteAllBacklog | paryty-v1.0/agent/src/communication/edge_buffer.rs:434-469 | empties memory, table and counters; numbering goes on |
| EdgeBuffer.EdgeBuffer.Settle | paryty-v1.0/agent/src/communication/mod.rs:911-935 | the row behind an entry becomes sent or gains a retry as the send was answered; an entry without a row changes nothing |
| EdgeBuffer.SendDrained | paryty-v1.0/agent/src/communication/mod.rs:905-936 | the loop sends a prefix, up to the first refusal, and settles exactly the rows of the entries it tried |
| EdgeBuffer.FlushBuffer | paryty-v1.0/agent/src/communication/mod.rs:894-941 | the loop sends in drain order up to the first refusal, acknowledges each row, and leaves exactly the specified state |
| DeliveryRuns.RunInv | paryty-v1.0/agent/src/communication/edge_buffer.rs:256-326 | over every run: row ids and numbers ascend, memory is in number order, and the table is in drain order if the wall clock never goes back |
| DeliveryRuns.EveryNumberInExactlyOnePlace | paryty-v1.0/agent/src/communication/edge_buffer.rs:256-757 | over every run, with each flush in one go, each number handed out is in exactly one of memory, pending rows, delivered, expired, evicted for room, deleted, dropped by a flush, taken; no other number is anywhere |
| DeliveryRuns.NothingDeliveredTwice | paryty-v1.0/agent/src/communication/mod.rs:894-941 | over every run the flush loop delivers no entry twice |
| DeliveryRuns.AcknowledgeConserves | paryty-v1.0/agent/src/communication/edge_buffer.rs:545-574 | acknowledging part of a batch takes exactly those numbers out of the pending rows |
| FlightRuns.EveryNumberAccountedFor | paryty-v1.0/agent/src/communication/mod.rs:894-941 | over every run with other actions between the sends of a flush: each number handed out is in exactly one place, the flush in progress being one, and once more if it was sent after its row had gone |
| FlightRuns.InTwoPlacesIff | paryty-v1.0/agent/src/communication/edge_buffer.rs:642-662 | a number is both delivered and expired or deleted if and only if it was sent after its row had gone; then it is once each and nowhere else, and any other number is in exactly one place |
| FlightRuns.DeliveredAtMostOnce | paryty-v1.0/agent/src/communication/mod.rs:894-941 | whatever goes on between the sends, no number is delivered twice |
| FlightRuns.LateSend | paryty-v1.0/agent/src/communication/edge_buffer.rs:434-469 | a row is drained, the backlog deleted, the entry sent: its number is both deleted and delivered |
| FlightRuns.NoDataLossInFlightIff | paryty-v1.0/agent/src/communication/mod.rs:905-936 | with other actions between the sends, every number handed out is still held, on its way or gone as it should be if and only if no write has to evict and no send is refused while entries without a row wait |
| FlightRuns.RefusalLoses | paryty-v1.0/agent/src/communication/mod.rs:922-935 | a refused send loses exactly the entries still to go that no row backs |
| FlightRuns.UninterruptedFlush | paryty-v1.0/agent/src/communication/mod.rs:894-941 | a drain and its sends with nothing in between are the flush in one go |
| FlushGuarantees.FlushDeliversOldestFirst | paryty-v1.0/agent/src/communication/mod.rs:724-774 | in every reachable buffer a flush delivers memory FIFO, then the first thousand unsent rows in drain order, up to the first refusal; with a wall clock never set back those are the oldest thousand, in write order |
| FlushGuarantees.FlushLosesNothingIff | paryty-v1.0/agent/src/communication/mod.rs:895-936 | the numbers held before a flush and neither held nor delivered after it are exactly those of memory entries at and after the first refusal; there are none if and only if no send is refused while memory entries remain |
| FlushGuarantees.NoDataLossIff | paryty-v1.0/agent/src/communication/edge_buffer.rs:1-20 | over a whole run every number handed out is held, delivered, read out, expired or deleted if and only if every write fits, spills or finds nothing to evict and no flush is refused while memory entries remain |
| FlushGuarantees.WorkingTableDisplacesNothing | paryty-v1.0/agent/src/communication/edge_buffer.rs:272-297 | with a database whose inserts all work nothing is ever evicted to make room |
| FlushGuarantees.RefusedSendLosesMemory | paryty-v1.0/agent/src/communication/mod.rs:895-936 | one buffered entry and one refused send: the entry is gone |
| FlushGuarantees.FlushKeepsRows | paryty-v1.0/agent/src/communication/mod.rs:911-935 | a flush deletes no row; exactly the delivered ones become sent and only the refused row gets a retry |
| FlushGuarantees.FlushesEmptyBacklog | paryty-v1.0/agent/src/communication/edge_buffer.rs:31-31 | with no refusals, n flushes leave max(0, p - 1000 n) of p pending rows, so ceil(p/1000) empty the table |
| FlushGuarantees.MemoryBound | paryty-v1.0/agent/src/communication/edge_buffer.rs:272-313 | in every reachable state the data in memory is within the configured bytes or is one oversize entry; with a working table it is always within |
| FlushGuarantees.ExpiryLeavesNoneExpired | paryty-v1.0/agent/src/communication/edge_buffer.rs:622-633 | popping expired entries from the front equals filtering the whole deque by TTL, in every reachable state |
| Payloads.WriteDoes | paryty-v1.0/agent/src/communication/edge_buffer.rs:256-326 | in every reachable buffer, by ages and bytes: what is older than the TTL goes, the next number is given out, and the entry is kept if it fits beside the bytes in memory, else spilled if that works, else it replaces the fewest oldest entries that make room |
| Payloads.BufferCarriesWritten | paryty-v1.0/agent/src/communication/edge_buffer.rs:256-326 | over every run, each entry in memory and each row carries exactly the data and the type handed to the write that got its number |
| Payloads.DrainCarriesWritten | paryty-v1.0/agent/src/communication/edge_buffer.rs:737-755 | so does every entry a drain hands out, rows included |
| Payloads.Replay | paryty-v1.0/agent/src/communication/mod.rs:894-941 | the object, run through any actions, stands where the run does, and every entry it sends or hands out carries what was written under its number |
| Payloads.NameReads | paryty-v1.0/agent/src/communication/edge_buffer.rs:69-90 | the name a type is stored by reads back as that type |
| Payloads.TypeOfIs | paryty-v1.0/agent/src/communication/edge_buffer.rs:741-750 | a row's type is the one its name names, and Metrics if it names none |
| Restarts.LifeConserves | paryty-v1.0/agent/src/communication/edge_buffer.rs:227-249 | over every life on the rows of an earlier one, a number is as often somewhere as it was handed out in this life and carried by an unsent row at its start |
| Restarts.EveryLifeAccountedFor | paryty-v1.0/agent/src/communication/edge_buffer.rs:227-326 | over any number of lives, the entries with a number, held, gone as they should be or lost, are as many as the lives that handed it out |
| Restarts.UniqueOverLivesIff | paryty-v1.0/agent/src/communication/edge_buffer.rs:44-45 | over any number of lives a number names one entry at most, among all there ever were, if and only if no two lives get to it |
| Restarts.AllUniqueOverLivesIff | paryty-v1.0/agent/src/communication/edge_buffer.rs:44-45 | all numbers are unique if and only if at most one of the lives writes anything |
| Restarts.DeliveredInBothLives | paryty-v1.0/agent/src/communication/edge_buffer.rs:227-249 | one write and one flush before and after a restart deliver two entries with number 1 |
| Restarts.RestartLosesMemory | paryty-v1.0/agent/src/communication/edge_buffer.rs:227-249 | what a restart takes out of the buffer is what was in memory, number by number |
| Restarts.NoDataLossOverLivesIff | paryty-v1.0/agent/src/communication/edge_buffer.rs:1-20 | over any number of lives every entry written is still held or gone as it should be if and only if every step loses nothing and every restart finds memory empty |
| Restarts.UniqueInSecondLifeIff | paryty-v1.0/agent/src/communication/edge_buffer.rs:227-249 | among what the second life inherits, holds and lets go, a number names one entry at most if and only if it is not both carried over by an unsent row and handed out again |
| Restarts.AllUniqueInSecondLifeIff | paryty-v1.0/agent/src/communication/edge_buffer.rs:227-249 | there all numbers are unique if and only if no unsent row carries one that the second life gets to |
| Restarts.DeliveredAcrossRestart | paryty-v1.0/agent/src/communication/edge_buffer.rs:227-249 | the second life delivers a number at most as often as it hands it out or an unsent row carries it, and both lives together at most as often as both hand it out |
| Restarts.RestartReusesNumbers | paryty-v1.0/agent/src/communication/edge_buffer.rs:227-249 | the same spilled write before and after a restart: two unsent rows with number 1 |
| MemoryCounter.CounterTracksDeque | paryty-v1.0/agent/src/communication/edge_buffer.rs:307-311 | in every interleaving, counter plus work in flight equals the deque's bytes modulo 2^64 |
| MemoryCounter.CounterExactIff | paryty-v1.0/agent/src/communication/edge_buffer.rs:331-345 | the counter is the true total if and only if the work in flight cancels out modulo 2^64, in particular when all threads are idle |
| MemoryCounter.CounterCanWrap | paryty-v1.0/agent/src/communication/edge_buffer.rs:308-311 | a reader that subtracts before the writer adds leaves 2^64 - size in the counter over an empty deque, with any number of threads from two |
| MemoryCounter.EvictsNothingIff | paryty-v1.0/agent/src/communication/edge_buffer.rs:272-304 | in every reachable state a writer evicts nothing if and only if the deque is empty, or its bytes and the new entry less the work in flight are within the bound modulo 2^64 |
| MemoryCounter.MakeRoomEvictsFewest | paryty-v1.0/agent/src/communication/edge_buffer.rs:297-304 | the eviction loop takes out the fewest oldest entries with which the counter no longer reads full, or all of them |
| MemoryCounter.QuietWriterEvictsNothing | paryty-v1.0/agent/src/communication/edge_buffer.rs:272-304 | with all other threads idle a writer whose entry fits beside the deque's bytes evicts nothing |
| MemoryCounter.WrapEvictsAll | paryty-v1.0/agent/src/communication/edge_buffer.rs:297-304 | a run that wraps the counter and then makes a writer evict everything, although its entry fits |
| FlowControl.FlowControl.Enqueue | paryty-v1.0/agent/src/communication/flow_control.rs:105-148 | push and stable sort with displacement act on four FIFO lanes as specified, including the drop counter and the answer |
| FlowControl.FlowControl.Dequeue | paryty-v1.0/agent/src/communication/flow_control.rs:151-155 | serves the four lanes in priority order, each from its oldest message |
| FlowControl.FlowControl.LastNoMoreImportant | paryty-v1.0/agent/src/communication/flow_control.rs:132-133 | finds the last message at least as unimportant as the newcomer, or shows there is none |
| FlowControl.SortSpec | paryty-v1.0/agent/src/communication/flow_control.rs:272-274 | the sort orders by priority and keeps the order inside each class |
| FlowControl.SortedIsFlattened | paryty-v1.0/agent/src/communication/flow_control.rs:272-274 | a sorted deque is its four lanes one after the other |
| FlowControl.LastDecides | paryty-v1.0/agent/src/communication/flow_control.rs:132-139 | in a sorted deque something can be displaced exactly when the last message can |
| FlowControlRuns.EveryOfferAccountedFor | paryty-v1.0/agent/src/communication/flow_control.rs:105-155 | over every run, offers = served + queued + dropped, and queued non-critical messages never exceed the limit |
| FlowControlRuns.ClassesAreFifo | paryty-v1.0/agent/src/communication/flow_control.rs:105-155 | over every run each class leaves in offer order with some left out, and of the critical class nothing is left out |
| FlowControlRuns.DisplacesWorstOrRefuses | paryty-v1.0/agent/src/communication/flow_control.rs:129-142 | at capacity the newest message of the least important non-empty class is displaced if that class is no more important than the newcomer, else the newcomer is refused |
| FlowControlRuns.RoomAdmits | paryty-v1.0/agent/src/communication/flow_control.rs:105-148 | a critical message, or any that is not sampled out while there is room, becomes the last of its class; nothing else changes, nothing is dropped, and the answer is yes |
| FlowControlRuns.SampledOutIsRefused | paryty-v1.0/agent/src/communication/flow_control.rs:115-127 | any other message that is sampled out is refused, counted, and leaves the queue as it was |
| FlowControlRuns.DropsAreCounted | paryty-v1.0/agent/src/communication/flow_control.rs:105-148 | over every run the drop counter counts exactly the non-critical offers that were sampled out or made to a full queue |
| Sni.ExtractSni | paryty-v1.0/agent/src/ebpf/http_inspector.rs:126-207 | the offset walk computes the same as splitting vectors off the data, for all bytes |
| Sni.WalkExtensions | paryty-v1.0/agent/src/ebpf/http_inspector.rs:187-206 | the extension loop stops at the first server-name extension or the first malformed one |
| Sni.ExtractReadsName | paryty-v1.0/agent/src/ebpf/http_inspector.rs:126-230 | every accepted shape yields its first host name |
| Sni.ExtractDecomposes | paryty-v1.0/agent/src/ebpf/http_inspector.rs:126-230 | bytes that yield a name are an accepted shape carrying that name |
| Sni.ExtractIff | paryty-v1.0/agent/src/ebpf/http_inspector.rs:126-230 | a name is found if and only if the bytes decompose with it as first host name |
| Sni.TrailingBytesIgnored | paryty-v1.0/agent/src/ebpf/http_inspector.rs:143-155 | appending bytes never changes a name already found |
| Sni.ClientHelloRoundTrip | paryty-v1.0/agent/src/ebpf/http_inspector.rs:550-596 | for any well-formed ClientHello in one record (section 4.1.2 of RFC 8446, section 3 of RFC 6066), of any record version, with any extensions and any name lists: the first entry of the first server-name extension comes out if the version is at least 3.1, the entry is a host name and it is UTF-8; else nothing |
| Sni.HostFoundIff | paryty-v1.0/agent/src/ebpf/http_inspector.rs:217-219 | a host name sent is found if and only if it is the first entry of its list |
| Sni.OtherTypeHidesHost | paryty-v1.0/agent/src/ebpf/http_inspector.rs:217-219 | a message whose host name is hidden by an entry of another type |
| Sni.WireOrder16 | paryty-v1.0/agent/src/ebpf/http_inspector.rs:139-139 | the two-byte lengths of the encoders above are high byte first |
| Sni.WireOrder24 | paryty-v1.0/agent/src/ebpf/http_inspector.rs:148-149 | so are the three-byte ones |
| Sni.ExampleYieldsName | paryty-v1.0/agent/src/ebpf/http_inspector.rs:550-596 | the 72 bytes of a ClientHello for example.com yield that name |
| DbInspector.DbInspector.Inspect | paryty-v1.0/agent/src/ebpf/db_inspector.rs:227-281 | one payload changes the pending map and the statistics, and produces an event, as specified |
| DbInspector.DbInspector.ParsePostgresql | paryty-v1.0/agent/src/ebpf/db_inspector.rs:352-536 | queries are remembered, completions and errors always reported, ready-for-query only when something is pending |
| DbInspector.DbInspector.ParseMysql | paryty-v1.0/agent/src/ebpf/db_inspector.rs:547-689 | queries and executions are remembered, OK and ERR packets reported |
| DbInspector.DbInspector.ParseRedis | paryty-v1.0/agent/src/ebpf/db_inspector.rs:705-913 | arrays and inline commands are remembered, replies reported only when something is pending |
| DbInspector.PendingIsLatestUnanswered | paryty-v1.0/agent/src/ebpf/db_inspector.rs:352-948 | after any history a socket's entry is the latest request on that pid and port with no answer since, and there is none otherwise |
| DbInspector.SocketKeyInjective | paryty-v1.0/agent/src/ebpf/db_inspector.rs:1295-1297 | two sockets share a key exactly when pid and port agree |
| DbInspector.EventReportsAnswered | paryty-v1.0/agent/src/ebpf/db_inspector.rs:435-464 | an event carries a request exactly when its payload answers one, and then that request under the same protocol, pid and port with the time passed since; without a request it reports no time |
| DbInspector.EventIff | paryty-v1.0/agent/src/ebpf/db_inspector.rs:227-281 | there is an event exactly for TLS, for an answer, and for a completion of a request still unanswered; it bears the capture's protocol, pid and port |
| DbInspector.PostgresKinds | paryty-v1.0/agent/src/ebpf/db_inspector.rs:296-315 | by first letter on port 5432: which payloads are PostgreSQL, and which of them ask, answer and complete |
| DbInspector.MysqlKinds | paryty-v1.0/agent/src/ebpf/db_inspector.rs:317-323 | by fifth byte on port 3306: which payloads are MySQL, and which of them ask and answer |
| DbInspector.RedisKinds | paryty-v1.0/agent/src/ebpf/db_inspector.rs:325-335 | by first byte on ports 6379 and 26379: which payloads are Redis, and which of them ask and complete |
| DbInspector.OtherKinds | paryty-v1.0/agent/src/ebpf/db_inspector.rs:284-338 | short payloads and other ports are unknown, TLS is encrypted on any port, and neither asks nor answers |
| DbInspector.CapturesAreCounted | paryty-v1.0/agent/src/ebpf/db_inspector.rs:925-932 | over every history the total counts the payloads that are not empty, unknown and encrypted ones apart |
| DbInspector.ReportedAtMostOnce | paryty-v1.0/agent/src/ebpf/db_inspector.rs:436-438 | two events that carry a request carry those of different captures, so no request is reported twice |
| DbInspector.EventsAreCounted | paryty-v1.0/agent/src/ebpf/db_inspector.rs:925-948 | over every history each protocol counter is the number of events emitted for that protocol |
| DbDecoders.ParseRespArray | paryty-v1.0/agent/src/ebpf/db_inspector.rs:1063-1091 | the iterator loop finds the first two value lines |
| DbDecoders.RespRoundTrip | paryty-v1.0/agent/src/ebpf/db_inspector.rs:1063-1091 | encoding any arguments and parsing gives back command and key if and only if neither holds a CRLF, whatever else is sent |
| DbDecoders.RespCommandIff | paryty-v1.0/agent/src/ebpf/db_inspector.rs:1075-1086 | the command survives encoding and parsing if and only if it holds no CRLF |
| DbDecoders.RespKeyIff | paryty-v1.0/agent/src/ebpf/db_inspector.rs:1075-1086 | behind a command that survives, the key does if and only if it holds no CRLF |
| DbDecoders.RespKeyLost | paryty-v1.0/agent/src/ebpf/db_inspector.rs:1075-1086 | a key that comes back empty |
| DbDecoders.NotAnArray | paryty-v1.0/agent/src/ebpf/db_inspector.rs:1063-1073 | text that does not begin with an asterisk yields UNKNOWN |
| DbDecoders.CountTooLarge | paryty-v1.0/agent/src/ebpf/db_inspector.rs:1063-1073 | so does a count of more than 64 bits |
| DbDecoders.ShortArray | paryty-v1.0/agent/src/ebpf/db_inspector.rs:1075-1091 | an array that ends behind its first element has its command read and an empty key |
| DbDecoders.CountOnly | paryty-v1.0/agent/src/ebpf/db_inspector.rs:1075-1091 | one that ends behind its count has neither |
| DbDecoders.ParsePgErrorResponse | paryty-v1.0/agent/src/ebpf/db_inspector.rs:984-1012 | the loop returns the first message field the scan meets, else everything decoded |
| DbDecoders.PgErrorRoundTrip | paryty-v1.0/agent/src/ebpf/db_inspector.rs:984-1012 | the scan comes to the message field if and only if the lengths that decoding adds to the fields before it come out even at its start; then its text is returned |
| DbDecoders.PgErrorOutcome | paryty-v1.0/agent/src/ebpf/db_inspector.rs:984-1012 | for any fields and anything after them, what is returned, computed field by field |
| DbDecoders.ValidTextIsSkipped | paryty-v1.0/agent/src/ebpf/db_inspector.rs:984-1012 | fields whose text decodes at its own length, as valid UTF-8 does, never get in the way |
| DbDecoders.InvalidTextHidesMessage | paryty-v1.0/agent/src/ebpf/db_inspector.rs:984-1012 | one invalid byte hides the message behind it, and one more field brings the scan back into step |
| DbDecoders.MessageIsM | paryty-v1.0/agent/src/ebpf/db_inspector.rs:984-1012 | of two fields the first is returned if its letter is M, else the second, which is |
| DbDecoders.TooShortForField | paryty-v1.0/agent/src/ebpf/db_inspector.rs:984-990 | five bytes or fewer yield nothing |
| DbDecoders.LenencRoundTrip | paryty-v1.0/agent/src/ebpf/db_inspector.rs:1025-1053 | every 64-bit value survives MySQL length-encoding |
| DbDecoders.LenencBytes | paryty-v1.0/agent/src/ebpf/db_inspector.rs:1025-1056 | the one-, two- and three-byte forms byte by byte, low byte first; 255 reads as zero |
| DbDecoders.LenencWide | paryty-v1.0/agent/src/ebpf/db_inspector.rs:1025-1056 | the eight-byte form is a low and a high word |
| DbDecoders.LenencTruncated | paryty-v1.0/agent/src/ebpf/db_inspector.rs:1025-1056 | input that ends too early reads as zero |
| LruCache.Cache.GetOrCreate | paryty-v1.0/intelligence/server/anomaly_service.py:505-520 | the new contents and the returned object on hit and miss, eviction loop included |
| LruCache.CacheHoldsMostRecent | paryty-v1.0/intelligence/server/anomaly_service.py:505-520 | after any accesses the cache holds, in order, the last `cap` distinct keys by most recent access |
| LruCache.ResidentIff | paryty-v1.0/intelligence/server/anomaly_service.py:505-520 | a key is resident if and only if fewer than `cap` distinct keys were accessed since its last access |
| LruCache.LargerCacheContainsSmaller | paryty-v1.0/intelligence/server/anomaly_service.py:512-513 | a larger cache always contains a smaller one's contents |
| LruCache.ObjectFromResidencyStart | paryty-v1.0/intelligence/server/anomaly_service.py:507-511 | the object held for a key was made at the start of its current residency |
| LruCache.LookupReturns | paryty-v1.0/intelligence/server/anomaly_service.py:505-520 | a hit returns the object of the current residency, a miss the one just made |
| TimeSeries.FillGaps | paryty-v1.0/intelligence/data/timeseries.py:96-124 | the nested loops compute the filled series for any interval; an interval of zero fails if and only if some gap ascends |
| TimeSeries.FillGap | paryty-v1.0/intelligence/data/timeseries.py:110-122 | the inner loop computes the points put into one gap, none when the gap is small or the interval negative; an interval of zero fails on an ascending gap |
| TimeSeries.NoIntervalKeepsSeries | paryty-v1.0/intelligence/data/timeseries.py:112-117 | without a positive interval the filled series is the series |
| TimeSeries.OriginalsKept | paryty-v1.0/intelligence/data/timeseries.py:105-107 | every original point is kept, in order |
| TimeSeries.InterpolationKept | paryty-v1.0/intelligence/data/timeseries.py:117-122 | between two originals stand exactly the points interpolating them |
| TimeSeries.ValuesOnLine | paryty-v1.0/intelligence/data/timeseries.py:117-120 | in any series the j-th of n points put into a gap has come exactly j parts of n + 1 of the way from one value to the other |
| TimeSeries.InsertedOnLine | paryty-v1.0/intelligence/data/timeseries.py:117-120 | and in ascending ones its time has come as far, rounded down to whole seconds |
| TimeSeries.InsertedIsMost | paryty-v1.0/intelligence/data/timeseries.py:112-115 | as many points go into a gap as leave whole intervals between them, 10000 at most |
| TimeSeries.InsertedSpacing | paryty-v1.0/intelligence/data/timeseries.py:110-122 | every inserted point is at least one interval from both neighbours |
| TimeSeries.InsertedBetween | paryty-v1.0/intelligence/data/timeseries.py:118-120 | every inserted point lies strictly between its original neighbours in time and between them in value |
| TimeSeries.GapsClosedIff | paryty-v1.0/intelligence/data/timeseries.py:112-115 | every remaining gap is below two intervals if and only if no original gap exceeds 10001 (2 interval - 1) |
| TimeSeries.FillIdempotentIff | paryty-v1.0/intelligence/data/timeseries.py:112-115 | filling again changes nothing under exactly the same condition |
| TimeSeries.Downsample | paryty-v1.0/intelligence/data/timeseries.py:144-163 | a short series or a negative target changes nothing, a target of zero fails; otherwise one mean point for each bin |
| TimeSeries.DownsampleCount | paryty-v1.0/intelligence/data/timeseries.py:147-158 | the bins partition the series in order, all but the last of n / target points, and number between target and 2 target - 1 |
| TimeSeries.MeanPointIs | paryty-v1.0/intelligence/data/timeseries.py:160-161 | the mean point of a bin times its size gives the sum of the values, and the sum of the times up to rounding towards zero |
| EnsembleWeights.Ensemble.UpdateWeights | paryty-v1.0/intelligence/forecasting/ensemble.py:153-200 | the loops compute the weights from the error histories |
| EnsembleWeights.WeightsAreShares | paryty-v1.0/intelligence/forecasting/ensemble.py:153-200 | weights are positive, sum to one and keep the order of the inverse mean errors, for any number of models and allowed bounds |
| EnsembleWeights.WeightsWithinBoundsIff | paryty-v1.0/intelligence/forecasting/ensemble.py:177-198 | final weights lie in the configured range if and only if it is a range and the first clamp leaves the total of the shares at one |
| EnsembleWeights.ThreeModelBounds | paryty-v1.0/intelligence/forecasting/ensemble.py:177-198 | with three models and defaults 0.1 and 0.6 every weight lies in (11/111, 12/17] |
| EnsembleWeights.UpperBoundReached | paryty-v1.0/intelligence/forecasting/ensemble.py:190-198 | the bound 12/17 is reached by concrete error histories |
| EnsembleWeights.InverseErrorIs | paryty-v1.0/intelligence/forecasting/ensemble.py:161-168 | the inverse error times the sum of the errors is their number, for a mean above 0.01; it is 100 below that and 1 without any |
| EnsembleWeights.NormaliseInProportion | paryty-v1.0/intelligence/forecasting/ensemble.py:175-175 | shares are in proportion to the inverse errors |
| EnsembleWeights.UnclampedWeights | paryty-v1.0/intelligence/forecasting/ensemble.py:175-198 | when every share is within the range the weights are the shares |
| Histogram.Histogram.Observe | paryty-v1.0/agent/go_sdk/paryty/metrics.go:169-192 | counts, sum, extremes and bucket counts always describe everything observed |
| Histogram.Histogram.Quantile | paryty-v1.0/agent/go_sdk/paryty/metrics.go:219-237 | the scan over cumulative counts yields the estimate at the exact rank; 0 when empty or out of range |
| Histogram.Histogram.QuantileLocked | paryty-v1.0/agent/go_sdk/paryty/metrics.go:263-279 | the same scan without the range check: above one it gives the largest observation |
| Histogram.BucketsHoldAll | paryty-v1.0/agent/go_sdk/paryty/metrics.go:180-190 | bucket counts sum to the number of observations |
| Histogram.BelowIsCountLe | paryty-v1.0/agent/go_sdk/paryty/metrics.go:180-190 | the first n buckets hold exactly the observations up to the n-th bound |
| Histogram.EstimateIsLeastBound | paryty-v1.0/agent/go_sdk/paryty/metrics.go:225-236 | the estimate is the least bound reaching the ceil(q n)-th smallest observation, or the true maximum |
| Histogram.EstimateMonotone | paryty-v1.0/agent/go_sdk/paryty/metrics.go:219-237 | a larger q never gets a smaller estimate |
| Histogram.ExtremesAre | paryty-v1.0/agent/go_sdk/paryty/metrics.go:173-178 | once something was observed the two extremes are the least and the greatest of it |
| Histogram.RankIs | paryty-v1.0/agent/go_sdk/paryty/metrics.go:225-225 | the rank is the least whole number that is at least q n |
| ConceptDrift.PageHinkleyDetector.Update | paryty-v1.0/intelligence/anomaly/concept_drift.py:60-76 | drift is signalled exactly when enough values were seen and the CUSUM of the stream exceeds the threshold |
| ConceptDrift.StatisticIsCusum | paryty-v1.0/intelligence/anomaly/concept_drift.py:66-76 | the incremental statistic equals the CUSUM recurrence |
| ConceptDrift.CusumIsMaxSuffix | paryty-v1.0/intelligence/anomaly/concept_drift.py:66-76 | and the largest suffix sum of deviations |
| ConceptDrift.FallingStreamNeverDrifts | paryty-v1.0/intelligence/anomaly/concept_drift.py:60-76 | the statistic of a non-increasing stream is zero for any non-negative tolerance |
| ConceptDrift.OneRise | paryty-v1.0/intelligence/anomaly/concept_drift.py:60-76 | one higher value after n equal ones raises the statistic to n parts of n + 1 of the rise, less the tolerance, or leaves it at zero |
| ConceptDrift.KsIsSupremum | paryty-v1.0/intelligence/anomaly/concept_drift.py:123-131 | the statistic at sample points is the supremum over all reals of the distance between the empirical distributions, and is reached |
| ConceptDrift.KsDetector.Update | paryty-v1.0/intelligence/anomaly/concept_drift.py:105-145 | both windows stay contiguous blocks of the stream, testing starts once the reference is full, and when drift is reported |
| ConceptDrift.EndsAreReversed | paryty-v1.0/intelligence/anomaly/concept_drift.py:135-153 | windows with equal empirical distributions are always reported, windows that do not overlap never, and in between the series decides |
| ConceptDrift.ConstantStreamDrifts | paryty-v1.0/intelligence/anomaly/concept_drift.py:105-145 | a constant stream is reported when both windows are full, and not before |
| ConceptDrift.JumpGoesUnreported | paryty-v1.0/intelligence/anomaly/concept_drift.py:105-145 | a stream that jumps to a higher value as the reference fills is never reported, however many higher values follow |
| ConceptDrift.KsZeroIff | paryty-v1.0/intelligence/anomaly/concept_drift.py:125-131 | the statistic is zero if and only if the two empirical distributions agree everywhere |
| ConceptDrift.KsOneIff | paryty-v1.0/intelligence/anomaly/concept_drift.py:125-131 | the statistic is one if and only if some point separates the two windows, in either order |
| ConceptDrift.HalfOverlap | paryty-v1.0/intelligence/anomaly/concept_drift.py:123-131 | two windows of two values that share one of them are half apart |
| ConceptDrift.AdwinDetector.Update | paryty-v1.0/intelligence/anomaly/concept_drift.py:191-204 | the window stays a bounded suffix of the stream and is cut exactly at the first qualifying position |
| ConceptDrift.AdwinDetector.FindCut | paryty-v1.0/intelligence/anomaly/concept_drift.py:206-230 | the loop over cut points finds the first tested one whose sides' means differ by the bound |
| ConceptDrift.AdwinDetector.CheckDrift | paryty-v1.0/intelligence/anomaly/concept_drift.py:206-241 | drift exactly when there is such a cut; then what is left of it goes and the sum is taken afresh |
| ConceptDrift.FirstCut | paryty-v1.0/intelligence/anomaly/concept_drift.py:212-230 | a cut leaves the minimum on both sides and separates the means |
| ConceptDrift.CutIsFirst | paryty-v1.0/intelligence/anomaly/concept_drift.py:212-230 | no tested position before the cut qualifies; with no cut, none does |
| ConceptDrift.RiseIsCut | paryty-v1.0/intelligence/anomaly/concept_drift.py:206-230 | a window with a jump at a tested position, every n / 20 values, is cut if the jump is no less than the bound there |
| ConceptDrift.JumpIsReported | paryty-v1.0/intelligence/anomaly/concept_drift.py:191-241 | such a jump halfway is reported at the first update that tests anything, and the values before it are forgotten |
| ConceptDrift.AdwinDetector.ReportedMean | paryty-v1.0/intelligence/anomaly/concept_drift.py:248-253 | the mean is the window's whenever no value was dropped since the last cut, for positive values only then, and in general if and only if the dropped ones sum to zero |
| ConceptDrift.OverflowMisreportsMean | paryty-v1.0/intelligence/anomaly/concept_drift.py:197-198 | for any least window and any positive bound: k equal positive values through a window of n < k are never cut and report k/n times their value |
| FileNames.SanitizeFilenameComponent | paryty-v1.0/intelligence/security.py:23-37 | the loop computes the sanitised component |
| FileNames.SanitizedIsSafe | paryty-v1.0/intelligence/security.py:26-29 | every component is non-empty, at most 100 characters, in the alphabet, free of ".." and not hidden |
| FileNames.SanitizeIdempotentIff | paryty-v1.0/intelligence/security.py:31-37 | sanitising twice equals once unless the uncut name is longer than 100 and its 100th character is a dot or an underscore |
| FileNames.CutBehindUnderscore | paryty-v1.0/intelligence/security.py:31-37 | 99 letters, an underscore and a letter: sanitising again changes the result |
| FileNames.RunBecomesUnderscore | paryty-v1.0/intelligence/security.py:31-37 | disallowed characters between two words, however many, come out as one underscore |
| FileNames.DotsBecomeUnderscore | paryty-v1.0/intelligence/security.py:33-34 | so do two dots |
| FileNames.PaddingGoes | paryty-v1.0/intelligence/security.py:31-31 | dots and underscores around a word go |
| FileNames.NothingIsUnnamed | paryty-v1.0/intelligence/security.py:35-36 | a name of nothing else is called "unnamed" |
| Decimal.ParseIntReads | paryty-v1.0/intelligence/forecasting/model_store.py:186-192 | reading a printed version gives it back, for every integer |
| Decimal.PrintExample | paryty-v1.0/intelligence/forecasting/model_store.py:168-174 | -120 is printed as those four characters |
| Decimal.PaddedReads | paryty-v1.0/intelligence/forecasting/model_store.py:186-192 | a sign and white space around the digits are read over |
| Decimal.OthersRefuse | paryty-v1.0/intelligence/forecasting/model_store.py:186-192 | any character in front that is no digit, sign, underscore or white space makes it no number |
| Decimal.UnderscoresRead | paryty-v1.0/intelligence/forecasting/model_store.py:186-192 | single underscores between digits are skipped, others make it no number |
| ModelStore.ForecastModelStore.NextVersion | paryty-v1.0/intelligence/forecasting/model_store.py:176-192 | one more than the largest version listed for the name, 1 if none |
| ModelStore.ForecastModelStore.Save | paryty-v1.0/intelligence/forecasting/model_store.py:42-82 | an existing file is renamed to the next version, then the new one written |
| ModelStore.ForecastModelStore.Load | paryty-v1.0/intelligence/forecasting/model_store.py:84-99 | the artifact under the current name, if any |
| ModelStore.BackupIsFresh | paryty-v1.0/intelligence/forecasting/model_store.py:62-67 | the chosen backup name is free in any directory, whatever other files are called |
| ModelStore.SaveDestroysNothing | paryty-v1.0/intelligence/forecasting/model_store.py:58-75 | a save adds exactly one copy of its artifact and destroys none |
| ModelStore.SaveThenLoad | paryty-v1.0/intelligence/forecasting/model_store.py:58-99 | the saved artifact is the one loaded and other files are unchanged |
| ModelStore.SaveDetermined | paryty-v1.0/intelligence/forecasting/model_store.py:58-75 | the directory a save leaves is determined by the one it finds |
| ModelStore.LoadFinds | paryty-v1.0/intelligence/forecasting/model_store.py:42-99 | over any saves, a load under any name finds the artifact last saved under its file name; else what was there at first; else what a save under another name backed up there; else nothing |
| ModelStore.FoundUnderAnotherName | paryty-v1.0/intelligence/forecasting/model_store.py:58-99 | from an empty directory two saves for one metric make a load for a metric named like the backup find the first artifact |
| ModelStore.LooksLikeBackup | paryty-v1.0/intelligence/forecasting/model_store.py:158-174 | any plain metric name with "_v1" behind it is such a name |
| ModelStore.SavesKeepEverything | paryty-v1.0/intelligence/forecasting/model_store.py:42-82 | over any saves under any names, every artifact ever there is still there, one file per save |
| ModelStore.NamesStayInside | paryty-v1.0/intelligence/forecasting/model_store.py:158-174 | every file written has a plain visible name in the store's directory |
| ModelStore.FilesAreCalled | paryty-v1.0/intelligence/forecasting/model_store.py:158-174 | the file of names that need no sanitising is called after both, with suffix .joblib, and a backup after its version too |
| ModelStore.BothNamesMatter | paryty-v1.0/intelligence/forecasting/model_store.py:158-166 | two models share a file for one metric exactly when they sanitise alike, and so do two metrics of one model |
| ModelStore.NamesCanCollide | paryty-v1.0/intelligence/forecasting/model_store.py:158-166 | two different pairs of names that share a file |
| ModelStore.OnlyOwnVersionsCount | paryty-v1.0/intelligence/forecasting/model_store.py:176-192 | files not named after the base have no say in its next version |

## Left out

- EdgeBuffer.EdgeBuffer.Write: byte totals are unbounded integers here; the 64-bit wrap is modelled in MemoryCounter. Metrics other than the entry count, and `max_entries`, which the code never enforces, are not modelled.
- EdgeBuffer.EdgeBuffer.MarkSent: database calls other than the spill insert always succeed; a failed `mark_sent` would let the next flush deliver the row again.
- EdgeBuffer.FlushBuffer: also stands for `upload_backlog_stream`, whose loop is the same; the two are not modelled as overlapping.
- FlushGuarantees.FlushDeliversOldestFirst: rows with equal priority and creation time leave in row-id order, which the query does not ask for.
- DeliveryRuns.NothingDeliveredTwice: speaks of the flush loop; the `send_*` functions also try to send what they buffer, outside the buffer.
- MemoryCounter.CounterTracksDeque: leaves out `delete_all_backlog`, which stores zero after releasing the lock.
- DeliveryRuns.EveryNumberInExactlyOnePlace: one life of the buffer, with each flush in one go; FlightRuns has other actions between the sends, and Restarts any number of lives.
- Restarts.NoDataLossOverLivesIff: every life runs on the same configuration with its flushes in one go; a restart in the middle of a flush also loses the entries on their way that no row backs.
- FlightRuns.EveryNumberAccountedFor: one flush at a time, and taking memory and batch in one step; the code takes them under two locks, one after the other. An answer and the marking of the row are one step too.
- Payloads.Replay: one life of the buffer, with each flush in one go.
- MemoryCounter.EvictsNothingIff: the eviction loop runs with no other thread in between, and counter plus entry size wraps as in a release build; a debug build stops there.
- FlowControl.FlowControl.Enqueue: how server signals set the backpressure flag and sampling rate is not modelled; the fields may have any value.
- Sni.ExtractSni: UTF-8 validity is an arbitrary predicate.
- DbInspector.DbInspector.Inspect: query text, query type and table name are functions of the request's payload, so the payload is kept instead; row counts and error texts of events are not part of the event here.
- DbDecoders.ParseRespArray: works on decoded text; lossy UTF-8 decoding is not modelled there.
- LruCache.Cache.GetOrCreate: a factory that raises and a negative cache size are not modelled.
- TimeSeries.GapsClosedIff: exact arithmetic; floating-point rounding of interpolated timestamps is not modelled.
- EnsembleWeights.Ensemble.UpdateWeights: dictionaries keyed by the three fixed names are sequences in that order; the fallbacks for a zero total cannot happen, since every total is positive.
- Histogram.Histogram.QuantileLocked: not for a negative q, where the conversion to an unsigned integer is up to the implementation; `Quantile` refuses it.
- ConceptDrift.KsDetector.Update: the Kolmogorov series between its two ends is an arbitrary function.
- ConceptDrift.EndsAreReversed: between its two ends the p-value is whatever the series gives, an arbitrary function here.
- ConceptDrift.AdwinDetector.CheckDrift: the Hoeffding bound is an arbitrary function of the two sizes. Window sizes of zero, for which the detectors would divide by zero, are excluded.
- Decimal.ParseInt: digits and white space are the ASCII ones; Python also accepts other Unicode digits and white space.
- ModelStore.ForecastModelStore.Save: deleting, listing and file ages are not modelled; a crash between rename and dump is not modelled.
- gRPC, TLS, compression, tasks, heartbeats, configuration loading, logging, the HTTP parsers, SQL text heuristics and the machine-learning models are not part of this model.
