# Verification of respkit's codec and runtime

respkit is a Redis-protocol server library. This project models its two cores in Dafny and proves what they are for.

**The codec.** `Grammar` says, as plain functions, what a buffer means from a position on: a complete value and where it
ends, an incomplete one, or an index panic. `Values` says what a value looks like on the wire. `Inline` does the same for
the quoted words of inline commands, `InlineSpelling` says which lines spell which words, and `Int64` for decimal text over wrapping 64-bit integers. `Laws` and `Streams` prove
the laws of the format from these functions: parsing undoes printing, parsing is local, and cutting a stream into reads
does not change its values. `Parser`, `Reader`, `Writer`, `LegacyWriter` and `LegacyParser` are the imperative code:
classes whose positions and buffers change in place, with values that point into shared arrays (`Views`), each method
proved against those functions.

**The runtime.** `DispatcherModel` and `SessionModel` are labelled transition systems with one action for each atomic step
of a goroutine; channels, mutexes, atomics and wait groups act atomically. The `...Proofs` modules hold the inductive
invariants, the `...Theorems` modules (with `DispatcherOrder`, `SessionStop` and `SessionJam`) what follows for every run. `Dispatcher` and
`Session` are the same machines as classes with the source's fields: each method takes one step in the source's control
flow and is proved to be exactly the transition of the model, and `Run` drives them by an arbitrary schedule. `Runtime`
puts any number of sessions over one dispatcher, `RuntimeRuns` builds runs of the whole from runs of
one session (which `SessionRuns` builds), and `RuntimeStop` shuts them down. `Wire` follows the bytes from the write
loop to the peer, and `Connection` does so with the objects: a `Session`, a `Writer` and a sink.

What the proofs found about the code:

- A bulk length close to the largest 64-bit integer makes `dataStart + int(bulkLen) + 2` wrap past the bounds check and
  the parser indexes outside its buffer. `Laws.PanicsExactly` says when, `Laws.LargestBulkPanics` gives an input.
- `int64ToBytes` prints the minimum integer as a lone sign, which does not parse (`Int64.LoneSignIsNoNumber`).
- `Writer` emits nil arrays, also the one that an empty inline line produces, in a form that the parser takes for
  unfinished input: a value reads back if and only if no nil array is in it (`Laws.RoundTrip`).
- The legacy writer and `Writer` emit the same bytes if and only if all types in the value are declared and no nil array
  is in it (`LegacyWriter.SerializersAgree`); what the legacy writer emits always reads back (`LegacyWriter.LegacyRoundTrip`).
- A dispatcher that is stopped without having been started drops what it accepted (`DispatcherTheorems.DrainedExactly`,
  `DispatcherTheorems.UnstartedDropsAccepted`).
- The dispatcher is first in, first out if and only if its queues have room for one request: in larger ones the scheduler
  can find room for a newcomer while others wait, and workers then take the newcomer first (`DispatcherOrder.FifoExactly`,
  `DispatcherOrder.UnfairRun`).
- A session answers in the order of its requests in every run if and only if its in-flight limit is one
  (`SessionTheorems.OrderExactly`, `RuntimeRuns.OrderExactly`).
- A write loop that fails does not stop its session. After a failed flush, sixteen more responses fill the queue and the
  next forwarder waits until somebody stops the session (`SessionJam.CanJam`, `SessionJam.JammedUntilStopped`). Over a
  started dispatcher that is the only way in which a request gets stuck (`RuntimeTheorems.StuckExactly`), and it does
  happen there (`RuntimeRuns.CanGetStuck`).
- An error in the read loop does: its first one is its last, and ends the whole session (`SessionStop.FirstErrorEnds`,
  `SessionStop.SessionEnds`).

## Model

| member | source | states |
|---|---|---|
| Int64.WrapStep | internal/protocol/parser.go:408-442 | adding a digit to a wrapped number and wrapping again is adding it to the number itself and wrapping once, so overflow in the loop is arithmetic modulo 2^64 |
| Int64.ParseDigits | internal/protocol/parser.go:424-437 | the digit loop finds a number exactly for digits only, and it is their mathematical value reduced to 64 bits |
| Int64.ParseInt64 | internal/protocol/parser.go:408-442 | the result for any text is its signed decimal value reduced to 64 bits, and nothing exactly when the text is no optional sign followed by digits |
| Int64.NumbersExactly | internal/protocol/parser.go:372-442 | every non-empty digit string reads as its value modulo 2^64, alone or behind a plus sign, and as the opposite behind a minus sign; no other text reads as a number |
| Int64.FormatShortest | internal/protocol/writer.go:110-117 | the text printed for a number has a minus sign exactly if it is negative and no leading zeros |
| Int64.ParseIntFormat | internal/protocol/writer.go:110-117 | the decimal text of every 64-bit integer, the minimum included, reads back as that integer |
| Int64.Int64ToBytes | internal/protocol/types.go:162-182 | the fixed-size buffer filled from the back holds the decimal text of every integer, except that the minimum gives a lone sign |
| Int64.WriteDigits | internal/protocol/types.go:166-177 | the digits end up at the end of the 20-byte buffer, which is long enough |
| Int64.LoneSignIsNoNumber | internal/protocol/types.go:162-182 | the lone sign is no number, and is printed for no other integer |
| Values.NilTexts | internal/protocol/writer.go:72-89 | nil arrays, nil bulk strings, nulls and values of undeclared type are written with the length that reads as -1 |
| Values.EqualMeans | internal/protocol/types.go:132-158 | two values are equal if and only if both have declared types throughout and are the same once nil and empty are not distinguished |
| InlineSpelling.TokensExactly | internal/protocol/parser.go:296-361 | a line splits into exactly the arguments that it spells, by words without spaces and quotes or by quotations in which any byte may stand behind a backslash and n, r, t there mean LF, CR and tab, with any number of spaces between; it is refused if and only if it spells nothing |
| InlineSpelling.TokensUndoPrint | internal/protocol/parser.go:296-361 | for every list of arbitrary byte strings, quoting with backslash escapes, joining with spaces and tokenizing gives back that list |
| InlineSpelling.PrintSpells | internal/protocol/parser.go:269-294 | the printed line spells the list and contains no CR and no LF, so it ends where its CRLF is |
| Inline.TokensAt | internal/protocol/parser.go:303-361 | what an unquoted word's end does: a space ends it, a quote at its start opens a quotation, a quote inside it is an error, and the line's end ends it |
| Inline.RefusedExactly | internal/protocol/parser.go:296-361 | a line is refused exactly when a one-pass reading finds a quote inside a word, something other than a space behind a closing quote, or a quotation left open, except one opened by the last byte of the line |
| Inline.QuotedStep | internal/protocol/parser.go:303-361 | one byte inside a quotation: the closing quote, a backslash and its escape, or the byte itself |
| Grammar.FindCrlf | internal/protocol/parser.go:363-370 | the first position of a CRLF from a position on, or none |
| Laws.BulkMeans | internal/protocol/parser.go:233-267 | the bulk branch gives the data exactly when the announced number of bytes and CRLF stand there, null exactly for length -1, and panics exactly when the announced end overflows |
| Grammar.ParseNext | internal/protocol/parser.go:139-158 | a complete value ends strictly behind its start and within the buffer |
| Grammar.ParseElems | internal/protocol/parser.go:160-194 | a complete array has the announced number of elements and ends within the buffer |
| Grammar.ParseAll | internal/protocol/parser.go:109-123 | parsing a whole buffer stops within the buffer |
| Laws.LineMeans | internal/protocol/parser.go:160-231 | for every header text without CRLF: simple strings and errors are the text as it stands, an integer line is its signed decimal or, if it is none, incomplete, and an array is complete exactly when its count is a number and that many values follow |
| Laws.ElemsAreDecoded | internal/protocol/parser.go:180-193 | elements are complete exactly when that many values stand one after the other |
| Laws.InlineMeans | internal/protocol/parser.go:269-294 | a line that starts with no type byte is the array of its arguments, and a nil array if it has none or is refused |
| Laws.NoLineNoValue | internal/protocol/parser.go:139-294 | where no CRLF has arrived there is no value yet |
| Laws.Window | internal/protocol/parser.go:139-294 | a value's parse depends only on the bytes it consumes, wherever they stand in whichever buffer |
| Laws.ElemsWindow | internal/protocol/parser.go:160-194 | the same for a run of array elements |
| Laws.Locality | internal/protocol/parser.go:126-136 | if n bytes are accepted: anything appended or cut off behind them changes nothing, and every shorter prefix is reported incomplete |
| Laws.PanicStable | internal/protocol/parser.go:139-294 | an index panic stays when bytes are appended and when the text stands later in a buffer |
| Laws.RoundTrip | internal/protocol/writer.go:63-134 | for every value and whatever follows it: parsing the serialized bytes consumes exactly them and returns the value with CR and LF in lines turned into spaces and nil bulk into null, if and only if no nil array is inside; with one, the parser reports them incomplete |
| Laws.RoundTripArray | internal/protocol/writer.go:76-84 | the same for an array, both ways, element by element through any nesting |
| Laws.BulkPanicsExactly | internal/protocol/parser.go:255-262 | the bulk branch panics exactly when the end of the announced body lies beyond the largest integer |
| Laws.PanicsExactly | internal/protocol/parser.go:139-294 | at any depth of nesting the parser indexes outside its buffer exactly when the innermost value that it does not get through is a bulk string whose header overflows the index |
| Laws.PanicNeedsOverflow | internal/protocol/parser.go:139-294 | so a buffer without such a header is never indexed outside |
| Streams.ParseAllPanicsExactly | internal/protocol/parser.go:109-123 | the same for Parse, at the value at which it stops |
| Laws.LargestBulkPanics | internal/protocol/parser.go:255-262 | a concrete header for which it does |
| Streams.ParseAllDecodes | internal/protocol/parser.go:109-123 | whole-buffer parsing returns the values one after the other and stops exactly where no complete value stands |
| Streams.ParseAllIsRepeatedParseOne | internal/protocol/parser.go:109-136 | Parse is ParseOne repeated on the rest: cutting the buffer at any position gives the same values and lengths |
| Streams.SerAllReads | internal/protocol/writer.go:23-61 | values serialized one after the other parse back in order up to the first one with a nil array inside, where the parser stops |
| Streams.SerAllParsesBack | internal/protocol/writer.go:23-61 | without nil arrays all of them parse back, and nothing is left |
| Streams.PartParses | internal/protocol/parser.go:109-123 | the values found in a part of a stream are the first ones of the whole |
| Streams.InlineRoundTrip | internal/protocol/parser.go:269-294 | an inline command spelled in any way on one line, whatever follows, parses to an array of its arguments and consumes exactly the line |
| Streams.PrintRoundTrip | internal/protocol/parser.go:269-294 | in particular one printed with all arguments quoted |
| Streams.ChunkingIndependence | internal/protocol/parser.go:32-63 | for every cut of a stream into reads: the values returned are a prefix of what Parse finds in the bytes received; consumed bytes and buffer make up those bytes; and once a read fails without data, the values are all there are |
| Streams.CutsAgree | internal/protocol/parser.go:32-63 | two ways of cutting one stream give the same values and the same rest |
| Streams.HistoryParses | internal/protocol/parser.go:32-63 | the values returned are the first ones also from a buffer that is not empty, and all there are when the buffer left starts with no complete value or the parser panics |
| Streams.PartDecides | internal/protocol/parser.go:126-136 | a value or a panic at the start of what has arrived is what the whole stream starts with |
| Streams.FailedLeavesNothing | internal/protocol/parser.go:32-54 | after a failure that brought no data the buffer holds no complete value |
| Parser.Parser.FindCRLF | internal/protocol/parser.go:363-370 | the scan finds the first CRLF |
| Parser.Parser.ParseOne | internal/protocol/parser.go:126-136 | value, length and failure are those of the grammar; slices point into the buffer or into fresh arrays |
| Parser.Parser.Parse | internal/protocol/parser.go:109-123 | all values up to the first incomplete one, and the bytes they take |
| Parser.Parser.ParseNext | internal/protocol/parser.go:139-158 | each branch agrees with the grammar; on failure the position is where it was |
| Parser.Parser.ParseArray | internal/protocol/parser.go:160-194 | agrees with the grammar, negative counts rejected, position restored on failure through any nesting |
| Parser.Parser.ParseElements | internal/protocol/parser.go:180-193 | the elements in order, or the position of the array's start |
| Parser.Parser.ParseSimpleString | internal/protocol/parser.go:196-205 | agrees with the grammar, position restored on failure |
| Parser.Parser.ParseError | internal/protocol/parser.go:207-216 | agrees with the grammar, position restored on failure |
| Parser.Parser.ParseInt | internal/protocol/parser.go:218-231 | agrees with the grammar, position restored on failure |
| Parser.Parser.ParseBulkString | internal/protocol/parser.go:233-267 | agrees with the grammar: null for length -1, failure for other negative lengths and for a short or unterminated body |
| Parser.Parser.ParseBulkBody | internal/protocol/parser.go:253-266 | the bounds check in wrapping arithmetic, and the body as a slice of the buffer |
| Parser.Parser.ParseInlineCommand | internal/protocol/parser.go:269-294 | agrees with the grammar: a nil array for an empty or malformed line, its words otherwise |
| Parser.Parser.ScanArg | internal/protocol/parser.go:303-352 | the inner loop stops at the space or quote that ends a word, behind a quotation's closing quote, or at the end of the line, with the bytes before it, escapes undone |
| Parser.Parser.ParseInlineArgs | internal/protocol/parser.go:296-361 | the restarting tokenizer loop terminates with exactly the words of the line |
| Reader.CopyValueIntoScope | internal/protocol/parser.go:65-88 | a copy with the same contents in memory that did not exist before |
| Reader.Reader.Compact | internal/protocol/parser.go:56-63 | drops exactly the consumed bytes from the front |
| Reader.Reader.TakeOut | internal/protocol/parser.go:37-49 | the value returned is in fresh memory and equal to the parsed view taken before the buffer shifts |
| Reader.Reader.Refill | internal/protocol/parser.go:41-53 | what a read delivered, also together with an error, is at the end of the buffer |
| Reader.Reader.TakeNext | internal/protocol/parser.go:37-43 | one attempt: the value at the start of the buffer in memory of its own and the rest of the buffer, or an untouched buffer |
| Reader.Reader.ReadLoop | internal/protocol/parser.go:37-53 | the source is called only while the buffer holds no complete value, each call's bytes are kept, and the loop ends with a value, or with an error exactly when the last call brought one |
| Reader.Reader.Read | internal/protocol/parser.go:32-54 | the same with the refusal of a missing scope; with a source whose errors come at its end the outcome is decided by the buffer and everything the source will deliver: its first value if there is one, an error only if there is none |
| Reader.ReadAll | internal/protocol/parser.go:32-88 | all values read stay valid and unchanged, disjoint from the reader's buffer, through every later compaction and refill; from whatever buffer the reader starts they are exactly the values that Parse finds in what arrived before the failing call or the panic, and a prefix of those in all that arrived; with errors only at the end of the source, all values of the whole stream |
| Writer.StripNewlines | internal/protocol/writer.go:125-134 | every CR and LF becomes a space, nothing else changes |
| Writer.StripAt | internal/protocol/writer.go:125-134 | that is, byte by byte |
| Writer.AppendPrefix | internal/protocol/writer.go:110-117 | the type byte, the decimal text and CRLF are appended |
| Writer.AppendBulk | internal/protocol/writer.go:104-108 | a bulk string is appended in its encoding |
| Writer.AppendValue | internal/protocol/writer.go:63-90 | the encoding of the value, of whatever nesting, is appended |
| Writer.Writer.Serialize | internal/protocol/writer.go:30-33 | the buffer grows by the encoding of the value, which is unchanged |
| Writer.Writer.Write | internal/protocol/writer.go:23-26 | the buffer grows by the encoding of the value |
| Writer.Writer.Flush | internal/protocol/writer.go:51-61 | an empty buffer is not handed over; any other is handed to the sink whole in one call, the flush fails exactly if that call does, and the buffer is empty in both cases |
| Writer.Writer.WriteBatch | internal/protocol/writer.go:23-61 | a batch written before one flush parses back to those values in order, and nothing else; the flush fails exactly if there was something to flush and the sink failed, and then the peer has what the sink took |
| Writer.SerializeValue | internal/protocol/writer.go:120-123 | the encoding of the value |
| LegacyWriter.SerializersAgree | pubsub.go:206-234 | for every value: the legacy encoding equals Writer's if and only if all types inside are declared and no nil array is |
| LegacyWriter.LegacySerIs | pubsub.go:206-234 | the legacy encoding is Writer's of the value with nil arrays emptied and undeclared types spelled out as bulk strings, at any depth |
| LegacyWriter.LegacyRoundTrip | pubsub.go:206-234 | so what the legacy writer emits for any value parses back, consuming exactly it |
| LegacyWriter.OthersDiffer | pubsub.go:206-234 | otherwise the two encodings differ whatever follows them |
| LegacyWriter.WriteLegacyValue | pubsub.go:206-234 | the primitives' fragments add up to the legacy encoding of every value, undeclared types included; it fails exactly when the connection breaks before the last fragment, having emitted a proper beginning |
| LegacyWriter.WriteLegacyArray | pubsub.go:208-217 | the same for an array |
| LegacyParser.BulkElemsAgree | internal/resp/parser.go:94-140 | a run of bulk-string elements is what the recursive parser finds, if that finds only bulk strings |
| LegacyParser.Parser.ParseArray | internal/resp/parser.go:73-148 | completes exactly when the recursive parser accepts an array of bulk strings at that position, with the same arguments and the same end, and returns the bytes it covered |
| LegacyParser.Parser.MarkElements | internal/resp/parser.go:94-140 | the marks recorded are the borders of the elements' bodies |
| LegacyParser.Parser.MarkElement | internal/resp/parser.go:94-140 | one element: its borders, its end, or why not |
| LegacyParser.Parser.Args | internal/resp/parser.go:134-147 | the arguments cut out at the marks |
| DispatcherModel.NewConfig | internal/dispatcher/dispatcher.go:41-59 | sizes that are not positive become one worker and 4096 places, others are kept |
| DispatcherProofs.InvStep | internal/dispatcher/dispatcher.go:62-215 | every action of every goroutine, and so every run, keeps the invariant: each accepted request in exactly one place, the counts, the capacities, the order of shutdown, one delivery for each executed request, and no panic |
| DispatcherProofs.SchedulerKeepsConservedAt | internal/dispatcher/dispatcher.go:127-176 | no step of the scheduler loses or duplicates a request |
| DispatcherProofs.WorkerKeepsConservedAt | internal/dispatcher/dispatcher.go:178-188 | no step of a worker does |
| DispatcherProofs.SchedulerKeepsCounted | internal/dispatcher/dispatcher.go:130-174 | pendingWorkers stays the number of unfinished requests behind the incoming channel |
| DispatcherProofs.CallerKeepsRegistering | internal/dispatcher/dispatcher.go:97-111 | the wait group counts exactly the calls between registration and return |
| DispatcherTheorems.EnqueueJudges | internal/dispatcher/dispatcher.go:89-112 | in every run an accepted request came with a usable result channel, and a failed call came without one or Stop had begun |
| DispatcherTheorems.AtMostOnce | internal/dispatcher/dispatcher.go:178-215 | a result is delivered at most once, only to an accepted request, and its slot is empty while its command runs |
| DispatcherTheorems.ExactlyOnce | internal/dispatcher/dispatcher.go:75-215 | in every run: at most one result per request, equal to its command's; a refused request is with no worker; nothing panics; after Stop of a started dispatcher every accepted request has its one result and all queues are empty |
| DispatcherTheorems.DrainedExactly | internal/dispatcher/dispatcher.go:75-85 | when Stop may return, everything accepted is answered if and only if the dispatcher was started or nothing was accepted |
| DispatcherTheorems.UnstartedDropsAccepted | internal/dispatcher/dispatcher.go:62-85 | a run in which Stop returns and an accepted request is not answered |
| DispatcherTheorems.SchedulerConservation | internal/dispatcher/dispatcher.go:130-174 | pendingWorkers is the number of requests ready, waiting, with workers, complete and being placed; waitingQueue stays within queueSize; the guard on pendingWorkers never fails |
| DispatcherTheorems.ClosedInOrder | internal/dispatcher/dispatcher.go:77-82 | incomingQueue is closed only when no call can reach its send; readyQueue only when incoming is closed and empty, nothing is ready or waiting and no worker holds a request |
| DispatcherTheorems.UnansweredIsWork | internal/dispatcher/dispatcher.go:127-215 | an accepted request without result is in a queue or with a goroutine |
| DispatcherTheorems.GoroutineMoves | internal/dispatcher/dispatcher.go:127-188 | while work is left or the incoming channel is closed, the scheduler or a worker has a step |
| DispatcherTheorems.StopMoves | internal/dispatcher/dispatcher.go:75-85 | while Stop is under way, started dispatcher or not, something has a step |
| DispatcherTheorems.NoDeadlock | internal/dispatcher/dispatcher.go:62-188 | a started dispatcher has a step of its own if and only if something is under way |
| DispatcherTheorems.MeasureStep | internal/dispatcher/dispatcher.go:75-188 | every action decreases a weight of requests by stage and of live goroutines |
| DispatcherTheorems.RunsEnd | internal/dispatcher/dispatcher.go:75-188 | a run is no longer than the weight of its first state |
| DispatcherTheorems.StopReturns | internal/dispatcher/dispatcher.go:75-85 | every run is bounded beforehand, and when nothing more can happen after Stop began, Stop has returned and, if there were goroutines, drained |
| DispatcherOrder.SchedulerKeepsLine | internal/dispatcher/dispatcher.go:145-174 | the scheduler keeps the order of requests except exactly when it places a newcomer in the ready channel while others wait |
| DispatcherOrder.RunKeepsLine | internal/dispatcher/dispatcher.go:145-174 | for any sizes, as long as the scheduler lets nobody overtake, the requests sent are those workers took and then those on their way, in that order |
| DispatcherOrder.SmallInTurn | internal/dispatcher/dispatcher.go:145-174 | with a queue size of one nobody is ever overtaken |
| DispatcherOrder.OvertakingRun | internal/dispatcher/dispatcher.go:163-167 | a run for every larger queue size after which the scheduler lets a newcomer overtake |
| DispatcherOrder.UnfairRun | internal/dispatcher/dispatcher.go:163-188 | a run for every larger queue size in which a worker takes the newcomer before a request that was sent earlier |
| DispatcherOrder.FifoExactly | internal/dispatcher/dispatcher.go:145-188 | the requests that workers took are the first ones sent, in the order in which they were sent, in every run, if and only if the queue size is one |
| Dispatcher.Dispatcher.constructor | internal/dispatcher/dispatcher.go:41-59 | a new dispatcher is the model's first state |
| Dispatcher.Dispatcher.Start | internal/dispatcher/dispatcher.go:62-72 | launches the goroutines the first time only |
| Dispatcher.Dispatcher.StepStopper | internal/dispatcher/dispatcher.go:75-85 | the next statement of Stop, blocked exactly when the model's is |
| Dispatcher.Dispatcher.StepCaller | internal/dispatcher/dispatcher.go:89-112 | a step of Enqueue, refusals included |
| Dispatcher.Dispatcher.SelectSend | internal/dispatcher/dispatcher.go:106-111 | the select: a send if there is room, a refusal if Stop has begun |
| Dispatcher.Dispatcher.StepScheduler | internal/dispatcher/dispatcher.go:127-176 | one iteration of the scheduler loop for the chosen select case |
| Dispatcher.Dispatcher.SelectCase | internal/dispatcher/dispatcher.go:140-174 | which cases of the outer select are open, and what they do |
| Dispatcher.Dispatcher.PlaceRequest | internal/dispatcher/dispatcher.go:163-167 | the inner select: ready channel or overflow queue |
| Dispatcher.Dispatcher.StepWorker | internal/dispatcher/dispatcher.go:178-215 | a step of a worker |
| Dispatcher.Dispatcher.GoroutinesGone | internal/dispatcher/dispatcher.go:75-85 | the wait group is at zero exactly when no goroutine is left |
| Dispatcher.Dispatcher.TakeResult | internal/dispatcher/dispatcher.go:213-215 | a collected result is what the request's command returned |
| Dispatcher.Dispatcher.Run | internal/dispatcher/dispatcher.go:62-215 | under any schedule the object follows a run of the model; its queues stay within their sizes and its count is right; when Stop has returned on a started dispatcher its queues are empty, its workers gone, and each request has one result if its call succeeded and none if not |
| SessionProofs.InvStep | internal/session/session.go:151-454 | every step keeps the invariant: each scope in one place, the in-flight count, the batch and what was written, own answers, and with limit one their order |
| SessionProofs.ForwarderKeepsGate | internal/session/session.go:165-177 | the counter equals the live forwarders and the read loop's own request, and decrementInflight never finds it below one |
| SessionProofs.ReaderKeepsGate | internal/session/session.go:333-364 | the same for the read loop, which checks before it adds |
| SessionProofs.WriterKeepsScope | internal/session/session.go:279-325 | the write loop neither loses nor duplicates a scope |
| SessionProofs.ForwarderKeepsSerial | internal/session/session.go:157-180 | with limit one, nothing is accepted after a refusal and answers are accepted in order |
| SessionTheorems.InFlightBound | internal/session/session.go:398-430 | in every run the counter is between 0 and the limit and equals live forwarders plus the read loop's unsubmitted request, and the floor is never met |
| SessionTheorems.LimitReached | internal/session/session.go:398-412 | a run of every session in which the counter reaches the limit |
| SessionTheorems.Conservation | internal/session/session.go:279-325 | in every run what was written is a prefix of what was accepted, and until a failure accepted is written, in hand and queued, in order |
| SessionTheorems.NormalExit | internal/session/session.go:281-306 | when the write loop ends because of a stop, everything accepted so far is written and flushed and its scopes are released |
| SessionTheorems.FlushCovers | internal/session/session.go:307-318 | when a flush begins, everything accepted so far has been written and is flushed already or about to be |
| SessionTheorems.ReleasedOnce | internal/session/session.go:341-380 | no scope is released twice, and none that the read loop, a forwarder, the queue or the batch still holds |
| SessionTheorems.ReleasedAfterFlush | internal/session/session.go:302-324 | scopes are released in order, each after its batch was flushed unless a write or flush failed; outside a batch all dequeued ones are released |
| SessionTheorems.OwnAnswers | internal/session/session.go:157-180 | every response written is the result of one of the session's requests with that request's scope |
| SessionTheorems.AnswersInOrder | internal/session/session.go:157-180 | with limit one, written responses are a prefix of the answers in request order, stops included |
| SessionTheorems.OrderExactly | internal/session/session.go:141-181 | responses are accepted, and written, in the order of the requests in every run if and only if the limit is one |
| SessionTheorems.SecondFirst | internal/session/session.go:141-181 | a run for every larger limit in which the second request is answered, and its response written, first |
| SessionStop.StepNearer | internal/session/session.go:235-430 | once the stop channel is closed or the read loop has met an error, every step of the session's goroutines, the retries of decrementInflight included, brings the end nearer |
| SessionStop.SessionEnds | internal/session/session.go:184-232 | their steps from then on are bounded beforehand, and when none is left the stop channel is closed and both loops have ended |
| SessionStop.FirstErrorEnds | internal/session/session.go:341-364 | after the first failed read, refused submission or missing scope no scope is allocated and no request submitted in any run; the read loop makes at most four more steps, and has then closed the stop channel |
| SessionStop.GivesBackLast | internal/session/session.go:346-363 | in every run, once a scope was given back the read loop is behind its loop |
| SessionStop.LoopMissing | internal/session/session.go:279-331 | a session without reader reads nothing, and one without writer writes nothing |
| SessionJam.JammedUntilStopped | internal/session/session.go:265-277 | in every run from a full queue and a failed write loop, a forwarder in its select stays there as long as the stop channel is not closed |
| SessionJam.CanJam | internal/session/session.go:317-325 | a run of every session, whatever its limit, that ends so, by one failed flush and no failed write |
| Session.Session.constructor | internal/session/session.go:83-98 | a new session is the model's first state |
| Session.Session.StepReader | internal/session/session.go:327-365 | a step of the read loop |
| Session.Session.StepGate | internal/session/session.go:398-412 | the check at the loop's head and waitForInflightSlot |
| Session.Session.StepRequest | internal/session/session.go:341-356 | scope, request and counter |
| Session.Session.StepReturn | internal/session/session.go:356-364 | what follows the submitter's return, on success and on error |
| Session.Session.StepForwarder | internal/session/session.go:169-177 | a step of a request's forwarder |
| Session.Session.CheckResponse | internal/session/session.go:266-268 | a stopped session refuses the response at once |
| Session.Session.OfferResponse | internal/session/session.go:270-276 | the select: the queue if it has room, a refusal if the session stops |
| Session.Session.LowerCounter | internal/session/session.go:420-430 | the load and compare-and-swap loop of decrementInflight |
| Session.Session.StepWriter | internal/session/session.go:279-325 | a step of the write loop |
| Session.Session.ReleaseBatch | internal/session/session.go:367-371 | the loop releases every scope of the batch, in order |
| Session.Session.StepStopper | internal/session/session.go:235-262 | a step of StopGracefully or CloseNow, or closeConn |
| Session.Session.Run | internal/session/session.go:184-430 | under any schedule the object follows a run of the model; counter and queue stay within their limits, no scope is released twice, a write loop that ended well has flushed all it wrote, and with limit one the output is the first results in order |
| Runtime.ForwardIsReceive | internal/session/session.go:169-177 | the value a forwarder finds in its request's channel is that request's result |
| Runtime.PartsStep | internal/session/session.go:151-181 | the invariants of the dispatcher and of every session hold in the whole |
| RuntimeProofs.InvStep | internal/session/session.go:157-180 | every request belongs to one forwarder of one session, and while that waits its result is not lost |
| RuntimeTheorems.SessionOrder | internal/session/session.go:157-180 | for any number of sessions and workers and every interleaving: a session with limit one has written a prefix of its requests' results in request order, each with its own scope |
| RuntimeTheorems.ClientReadsAnswers | internal/session/session.go:279-325 | its client, parsing what reached it through the writer's Write and Flush, finds those results in order and nothing else; unless a flush failed, all that were flushed up to the first with a nil array inside |
| RuntimeTheorems.OneOwner | internal/session/session.go:157-180 | no request is with two forwarders |
| RuntimeTheorems.AllAnswered | internal/session/session.go:157-325 | over a started dispatcher, once goroutines, forwarders and write loop have no step left, a session that is not being stopped and whose writer has not failed has written and flushed all responses; with limit one, exactly the results of all its requests in order |
| RuntimeTheorems.NoForwarderLost | internal/session/session.go:169-177 | once a started dispatcher's Stop has returned, every waiting forwarder finds its result |
| RuntimeTheorems.StuckExactly | internal/session/session.go:157-325 | in every run over a started dispatcher, no step carries a live forwarder's request further exactly when the forwarder is before the full queue of a session whose write loop has ended and whose stop channel is open |
| RuntimeTheorems.CallNotStuck | internal/session/session.go:356-364 | a read loop's call of Enqueue always gets on over a started dispatcher |
| RuntimeRuns.ServesOne | internal/dispatcher/dispatcher.go:89-215 | a started dispatcher with nothing to do takes a request and comes to that state again, with the result in the request's channel |
| RuntimeRuns.Realized | internal/session/session.go:151-181 | whatever a session alone can do with requests that are new and get accepted, it can do over a started dispatcher |
| RuntimeRuns.CanGetStuck | internal/session/session.go:265-325 | so a run of the whole in which a request of any given session gets stuck, for every configuration |
| RuntimeRuns.OrderExactly | internal/session/session.go:141-181 | over a dispatcher, too, a session writes in the order of its requests in every run if and only if its limit is one |
| RuntimeStop.StepNearer | server.go:157-195 | once every session is being stopped or has met an error in its read loop, every step of sessions and dispatcher brings the end of all of them nearer |
| RuntimeStop.ShutdownEnds | server.go:132-195 | once that is so and the started dispatcher is being stopped, the steps still made are bounded beforehand; and none is left exactly when all loops and forwarders have ended, Stop has returned and the dispatcher's goroutines are gone |
| Wire.WiredStep | internal/session/session.go:300-324 | after every step of the write loop the peer has what was flushed and the buffer what was written since; after a failed flush the peer has a beginning of the rest |
| Wire.PeerReads | internal/protocol/writer.go:23-61 | what the peer parses are the first responses written |
| Connection.Build | internal/protocol/types.go:32-64 | the constructors give a value of that content in memory of its own |
| Connection.WriteResponse | server.go:292-298 | a write puts the response into the connection's buffer and does not fail |
| Connection.FlushResponses | server.go:300-309 | a flush of the write loop always has something to flush, hands it to the sink whole in one call, and fails exactly if that call does; the write loop goes on accordingly |
| Connection.Serve | server.go:236-309 | a session object over a writer and a sink, under any schedule: its client finds the first results of its requests in the bytes that the sink received, and the write loop fails only if a call of the sink does |

## Left out

- LegacyWriter.WriteLegacyValue: takes the text that `fmt.Sprint` gives for a value of undeclared type as a parameter; the other cases of `WriteAny` do not arise.
- Parser.Parser.ParseOne: is for buffers shorter than the largest 64-bit integer, which every Go slice is.
- Laws.PanicsExactly: is about indexing; that `make` panics or runs out of memory for a huge declared count (internal/protocol/parser.go:182) is not part of this model.
- DispatcherOrder.FifoExactly: is for requests with result channels that Enqueue accepts, as every session's are; others are never sent.
- RuntimeTheorems.ClientReadsAnswers: is for sessions whose responses have fewer bytes in all than the largest 64-bit integer.
- RuntimeStop.ShutdownEnds: counts a read from the connection as a step that returns, as it does once the connection is closed or its deadline passes.
- Runtime.PartsStep: a call of Enqueue comes from a session's submitter only, and each request is passed on once; direct users of the dispatcher are covered by the dispatcher's own theorems.
- Passing one request object to Enqueue twice: the model identifies a request with its call.
- Start is one step; a Stop that overlaps with it sees all goroutines or none.
- A result channel closed by somebody else (internal/session/session.go:171-174): only the submitter's own closure has the channel, and nobody closes it.
- A change of the in-flight limit while requests are in flight.
- In the write loop the test of the queue's length and the receive after it are one step, which is exact because nobody else receives.
- Commands: what a request returns is a function of the request. Registry, PING and ECHO and their errors would only add easy members.
- Memory pools: a scope is an identity that gives fresh arrays; recycling is not part of this model.
- Network, deadlines, idle timeouts, the lock of a connection, the accept loop and configuration: the source is a sequence of deliveries, the sink a byte sequence and a plan that says which of its calls fail.
- The registry and matching of publish and subscribe: the matching is a library's, the maps are simple.
- The other branches of the second parser (internal/resp/parser.go:152-366), which repeat the first one's.
- CommandName, CommandArgs and the normalizing of command names (internal/protocol/types.go:94-129, 186-245): copies and case folding.
- Statistics, timestamps, user data, and the unused transaction and subscription fields.
- The Go memory model: each operation on a channel, mutex, atomic or wait group is one step.
