# Payment service and JSON engine: a verified model

A Dafny model of a payment gateway (`src/main.cpp`) and of the RapidJSON headers it
is built on (`include/rapidjson/`), with proofs of what they promise.

- **JSON text.** The reader's two parsers (recursive descent, and a table-driven
  automaton with an explicit stack) are one parser, which accepts exactly the texts of
  RFC 8259 with the events they mean; the writer and the reader are
  inverse to each other on whole documents; numbers are read exactly or not as
  integers; UTF-8 is accepted exactly as section 4 of RFC 3629 defines it. The
  index of an object's members agrees with a scan.
- **Payments.** Worker rings, the two-processor failover, the pool job and the
  per-second buckets are a state machine whose steps interleave. No payment is lost,
  duplicated or counted twice, and the buckets answer for every success. With one
  reliable processor whatever is queued drains, in one call for each payment. The
  payload sent is, to a JSON reader, the body's object with one member more.
- **Memory pool.** Bump allocation over chunks with in-place growth and shared
  ownership.
- **JSON Pointer and URI.** Parsing and printing are inverse; `RemoveDotSegments`
  in place is section 5.2.4 of RFC 3986.
- **Schema validation.** The streaming validator decides the recursive definition of
  validity; the value hasher ignores member order.

Where the source computes by expressions and recursion the model is functions and
lemmas; where it updates fields, buffers and cursors the model is classes, arrays
and loops whose contracts tie each method to those functions. `dafny verify
dfyconfig.toml` checks everything.

## How it is laid out

| files | what they hold |
|---|---|
| `Bytes`, `Json` | bytes, streams, handler events, parse outcomes |
| `Utf8`, `Lexer`, `Descent`, `Pushdown`, `ParserEquivalence`, `Reader`, `NumberReader` | the reader |
| `Grammar`, `GrammarNumbers`, `GrammarStrings`, `GrammarParser`, `ParseErrors` | JSON as RFC 8259 defines it, the proof that the reader decides it, and what its errors mean |
| `StringLiterals`, `Writer`, `Dom`, `NumberText`, `ValueText`, `ReadBack`, `RoundTrip`, `MemberIndex` | the writer, the document and the round trip |
| `WorkerRing`, `Failover`, `Payload`, `ReaderLocality`, `StampedPayload`, `Ledger`, `Pipeline`, `PipelineSafety`, `PipelineProgress`, `PaymentService` | the payment service |
| `MemoryPool`, `PoolRuns`, `PoolAllocator` | the memory pool |
| `DotSegments`, `PathSegments`, `Uri`, `UriParser`, `Pointer`, `PointerTokens`, `PointerParser`, `PointerResolve` | URI and JSON Pointer |
| `Schema`, `SchemaValidator`, `SchemaEquivalence`, `SchemaHandler`, `Fnv`, `Hasher` | schema validation and hashing |

## What the model takes as given

- A text is read through a NUL sentinel: at and after its end the reader sees NUL.
- Processor answers, clock values and base-allocator addresses are inputs of the
  steps. An answer is a success when the transfer completed with code 200, which is
  what `src/main.cpp:731` returns.
- Each enqueue, fetch, `handle_response`, `store_processed` and the check-and-set of
  `fallback_is_running` is one atomic step.
- Bodies end in `}`; a run is shorter than the 3000 seconds of the buckets.
- Amounts are exact numbers, and `stod` is a parameter. A double is represented by
  its literal; whether a literal overflows a double, and how the machine converts and
  lays out doubles for the hasher, are parameters.
- Over the window of the buckets the clock, in milliseconds, stays more than a second
  below 2^64.
- `itoa` prints plain decimal, and `internal::Stack` is a sequence.

## Where the code and its documentation or intent differ

The model follows the code.

- The project's own notes speak of a 50k ring buffer of processed payments; the code
  keeps 3000 one-second buckets (`src/main.cpp:263`, `src/main.cpp:755`).
- A 422 from the second attempt does not discard the payment: the second test looks
  at the first attempt's code (`src/main.cpp:541`), which is never 422 there. See
  `PipelineSafety.DroppedByFirst422`, `PaymentService.CallDiscards` and
  `PaymentService.Second422Retries`.
- A summary query that ends before the service started reports every payment
  (`Ledger.QueryBeforeStart`), and so does one that begins in the last second before
  1970, where the addition wraps around (`Ledger.QueryWraps`,
  `Ledger.LastSecondBefore1970`); `Ledger.QueryIsRangeTotal` says exactly when the
  answer is the range that was asked for.
- The payload of `{}` is not JSON, and a body with a `requestedAt` of its own is sent
  with two (`StampedPayload.EmptyObjectBreaks`, `Payload.StampedTwice`);
  `StampedPayload.PayloadParses` and `Payload.StampedOnce` say exactly when neither
  happens.
- When both processors are down and the primary is the first to answer again, the
  labels are swapped and the one that is still down becomes primary
  (`Failover.PrimaryAfterRecovery`, `Failover.RecoveryMisleads`).
- With one URL for both processors the timing comparison can pick the worse label
  (`Failover.OneUrlMisleads`, `Failover.EvaluationPicksBest`).
- The two parsers call a text that begins with a stray byte different names, and
  report a handler's veto at a bracket one byte apart, unless the bracket closes
  behind a trailing comma (`ParserEquivalence.ParsersAgree`, `ParserEquivalence.VetoApart`);
  parsing token by token names a text of blanks differently
  (`ParserEquivalence.StepwiseAgrees`).
- A positive exponent's counter leaves the int range on literals with more than
  214748055 folded fraction digits (`NumberReader.ExponentStaysInRange`,
  `NumberReader.LongFractionOverflows`).
- A pointer index too large for 32 bits is not always noticed, and 4294967295 is
  taken for no index (`Pointer.OverflowMissed`, `Pointer.LastIndexIsLost`,
  `Pointer.IndexIsExact`).
- Such an index can lead to an element it does not write
  (`PointerResolve.LargeIndexMisleads`), and `Set` through a name takes away an array
  that stood there (`PointerResolve.SetCanReplace`).
- The reader takes bytes from 0x80 on inside strings as they are, UTF-8 or not, and has
  limits on exponents and doubles; `Grammar` states both.
- A URI that begins with a colon is split into a scheme without a name, which the
  regular expression in the comment does not match (`Uri.SplitFollowsRegex`).

## Model

| member | source | states |
|---|---|---|
| `Utf8.DecodeAcceptsUtf8Char` | include/rapidjson/encodings.h:146-220 | the range-mask decoder accepts at a position exactly the byte sequences of the UTF8-char production, and never past the end |
| `Utf8.DecodeThenEncode` | include/rapidjson/encodings.h:102-174 | an accepted sequence decodes to a scalar value whose encoding is that sequence |
| `Utf8.EncodeThenDecode` | include/rapidjson/encodings.h:102-174 | the encoding of every scalar value, anywhere in a text, decodes to it with its own length |
| `Utf8.EncodeFollowsTable` | include/rapidjson/encodings.h:102-121 | every scalar value is encoded as the table of section 3 of RFC 3629 lays out its bits |
| `Utf8.DecodeFollowsTable` | include/rapidjson/encodings.h:146-174 | every accepted sequence is decoded to the code point that the table gives it |
| `Utf8.EncodeKeepsOrder` | include/rapidjson/encodings.h:102-121 | the encodings sort, byte by byte, as the scalar values do |
| `Utf8.DecodeAllInvertsEncodeAll` | include/rapidjson/encodings.h:102-174 | decoding the concatenated encodings of any scalar values returns those values |
| `Utf8.DecodeAllAcceptsWellFormed` | include/rapidjson/encodings.h:146-220 | a text decodes to its end exactly when it splits into UTF8-char productions |
| `Utf8.EncodeAllInvertsDecodeAll` | include/rapidjson/encodings.h:102-174 | re-encoding what a text decoded to gives the text back |
| `Utf8.Decode` | include/rapidjson/encodings.h:146-174 | the stream decoder takes the bytes and gives the verdict and code point of the specification |
| `Utf8.Validate` | include/rapidjson/encodings.h:179-202 | the validator agrees with the decoder on verdict and length and copies exactly the bytes it takes |
| `Pushdown.TransitKeepsBalance` | include/rapidjson/reader.h:2011-2160 | every transition keeps the state, the saved states and the nesting of the stack consistent, and consumes input |
| `Pushdown.DelimiterPredicted` | include/rapidjson/reader.h:658-660 | the state a transition reaches is a delimiter state exactly when the predicted one is, so skipping delimiters by prediction and by result agree |
| `ParserEquivalence.ValueSimulation` | include/rapidjson/reader.h:1752-1765 | from any state that expects a value, the automaton fails as the descent parser does or arrives behind the value with the same stack and events |
| `ParserEquivalence.ElementsSimulation` | include/rapidjson/reader.h:808-853 | the same for the rest of an array, whose element count the automaton keeps on its stack |
| `ParserEquivalence.MembersSimulation` | include/rapidjson/reader.h:740-805 | the same for the rest of an object |
| `ParserEquivalence.ParsersAgree` | include/rapidjson/reader.h:2192-2224 | on every text, with trailing commas on or off and for every handler, the automaton's outcome determines the descent parser's: same texts, events, errors and offsets, but for the name of a stray first byte, and one byte more on a veto at a bracket that does not close behind a trailing comma |
| `ParserEquivalence.VetoApart` | include/rapidjson/reader.h:808-813 | "[]" with its first bracket vetoed stops the two parsers one byte apart |
| `ParserEquivalence.StepwiseAgrees` | include/rapidjson/reader.h:620-672 | driving the parser token by token to completion gives the same result |
| `GrammarNumbers.NumeralRead` | include/rapidjson/reader.h:1468-1743 | every number of the grammar within the stated limits that nothing extends is read to its end, as the narrowest integer event or a double |
| `GrammarNumbers.ScannedNumeral` | include/rapidjson/reader.h:1468-1743 | whatever is read as a number is such a number |
| `GrammarNumbers.DoubleLiterals` | include/rapidjson/reader.h:1711-1743 | the literals of doubles in documents are the numbers of the grammar that mean doubles |
| `GrammarStrings.StringRead` | include/rapidjson/reader.h:991-1068 | every string of the grammar is read to its closing quote as the bytes it means, with all escapes and surrogate pairs |
| `GrammarStrings.ScannedString` | include/rapidjson/reader.h:991-1068 | whatever is read as a string is a string of the grammar |
| `GrammarParser.ValueRead` | include/rapidjson/reader.h:1752-1765 | every value of the grammar, with any white space, is read to its end as its events |
| `GrammarParser.ValueScanned` | include/rapidjson/reader.h:1752-1765 | whatever is read as a value is a value of the grammar |
| `GrammarParser.ParseDecidesJson` | include/rapidjson/reader.h:559-590 | for every text, trailing commas on or off: the parser succeeds with the events ev exactly when the text up to its NUL is JSON by RFC 8259 and means ev |
| `GrammarParser.AllParsersDecideJson` | include/rapidjson/reader.h:2192-2224 | so do the automaton and parsing token by token |
| `GrammarParser.JsonTexts` | include/rapidjson/reader.h:559-590 | a text without NUL is accepted exactly when it is JSON |
| `ParseErrors.ParseExplained` | include/rapidjson/reader.h:559-590 | every error names what is wrong at its offset: the missing name, colon, comma, quote, digit, the bad escape or surrogate, the broken literal |
| `ParseErrors.IterativeParseExplained` | include/rapidjson/reader.h:2192-2224 | so does every error of the automaton exactly when the text does not begin with a stray byte |
| `Reader.Reader.Parse` | include/rapidjson/reader.h:559-590 | the descent parser as an object gives the outcome of the specification |
| `Reader.Reader.ParseValue` | include/rapidjson/reader.h:1752-1765 | a value is parsed as specified, leaving the cursor, the events and the error |
| `Reader.Reader.ParseObject` | include/rapidjson/reader.h:740-805 | an object is parsed as specified |
| `Reader.Reader.ParseArray` | include/rapidjson/reader.h:808-853 | an array is parsed as specified |
| `Reader.Reader.ParseLiteral` | include/rapidjson/reader.h:856-893 | a literal is consumed byte by byte; the first mismatch is the error offset |
| `Reader.Reader.ParseHex4` | include/rapidjson/reader.h:906-925 | four hex digits and their value, or the error at the escape |
| `Reader.Reader.ParseStringToStream` | include/rapidjson/reader.h:991-1068 | a string literal is unescaped as specified, surrogate pairs included |
| `Reader.Reader.Transit` | include/rapidjson/reader.h:2011-2160 | one transition in place changes the stack, cursor and events as the specification does |
| `Reader.Reader.IterativeParse` | include/rapidjson/reader.h:2192-2224 | the automaton's loop gives the outcome of the specification |
| `Reader.Reader.IterativeParseNext` | include/rapidjson/reader.h:620-672 | one call returns after the next token that is not a separator, as specified |
| `NumberReader.ReadInt32` | include/rapidjson/reader.h:1495-1521 | digits accumulate in 32 bits without overflow, and the loop leaves exactly when the literal exceeds the range |
| `NumberReader.ReadInt64` | include/rapidjson/reader.h:1550-1575 | the same in 64 bits |
| `NumberReader.ReadFraction` | include/rapidjson/reader.h:1584-1630 | how many fraction digits are folded into the significand |
| `NumberReader.ExponentStaysInRange` | include/rapidjson/reader.h:1667-1672 | the values given to a positive exponent's counter are in the int range for every text exactly when at most 214748055 digits are folded |
| `NumberReader.ShortFractionFits` | include/rapidjson/reader.h:1584-1672 | they are on every literal with at most that many fraction digits |
| `NumberReader.LongFractionOverflows` | include/rapidjson/reader.h:1584-1672 | on "0.", n zeros and "e2147483649" they are exactly when n is at most that |
| `NumberReader.NegativeExponentStaysInRange` | include/rapidjson/reader.h:1648-1665 | negative exponent and fraction together stay in the int range for every text exactly when at most 2147483549 digits are folded |
| `NumberReader.ReadPositiveExponent` | include/rapidjson/reader.h:1666-1673 | the exponent is refused exactly when its value exceeds 308 plus the folded digits, whatever its length, and the counter leaves the int range exactly when the literal makes it |
| `NumberReader.ReadNegativeExponent` | include/rapidjson/reader.h:1648-1665 | the whole exponent is consumed, and the counter has the value of the digits up to where it stops growing |
| `NumberReader.ReadNumber` | include/rapidjson/reader.h:1468-1743 | the machine-integer parser computes the number specification |
| `NumberReader.IntegerLiteral` | include/rapidjson/reader.h:1483-1582 | an integer literal of any length gives the narrowest event of its sign that holds it, with the exact value, and Double or an overflow error exactly when none can |
| `StringLiterals.StringRoundTrip` | include/rapidjson/writer.h:383-455 | for every byte string, parsing the literal written for it returns the same bytes and stops behind it |
| `StringLiterals.EscapedFits` | include/rapidjson/writer.h:397-398 | escaping takes at most six units for each byte |
| `StringLiterals.AsciiAcceptsWellFormed` | include/rapidjson/writer.h:399-436 | with an ASCII target exactly the well-formed UTF-8 strings are written, in at most twelve units for each byte, all ASCII |
| `StringLiterals.AsciiRoundTrip` | include/rapidjson/reader.h:1022-1045 | those strings survive `\u` and surrogate-pair escapes |
| `Writer.Writer.WriteString` | include/rapidjson/writer.h:383-455 | the loop appends exactly the specified literal |
| `Writer.Writer.WriteAsciiString` | include/rapidjson/writer.h:383-455 | with an ASCII target it succeeds exactly on well-formed UTF-8, with the length bound |
| `Writer.Writer.WriteScalar` | include/rapidjson/writer.h:183-210 | scalar and key handlers append the separator and the text and count the value |
| `Writer.Writer.EndObject` | include/rapidjson/writer.h:232-239 | closing an object pops its level and appends the brace |
| `Writer.Writer.EndArray` | include/rapidjson/writer.h:247-253 | closing an array pops its level and appends the bracket |
| `Writer.Writer.BeginValue` | include/rapidjson/writer.h:479-497 | the separator before a value: comma, colon or nothing, by the level's count |
| `Dom.ConstructorsAgree` | include/rapidjson/document.h:792-828 | all four integer constructors store an equal number with identical bits and flags |
| `Dom.Document.OnEvent` | include/rapidjson/document.h:2821-2861 | each handler changes the value stack as specified |
| `NumberText.StoredReadBack` | include/rapidjson/document.h:2823-2826 | the event read for a number's text rebuilds that number's stored form, bits and flags |
| `ValueText.WriterPrints` | include/rapidjson/document.h:1948-1985 | the writer accepts the events of any value wherever a value is due and appends its text |
| `ReadBack.ValueReadBack` | include/rapidjson/reader.h:1752-1765 | the descent parser reads the text of any value, in any context that ends it, as the value's events |
| `RoundTrip.Rebuild` | include/rapidjson/document.h:2821-2861 | those events leave exactly that value on the document's stack |
| `RoundTrip.DocumentRoundTrip` | include/rapidjson/document.h:1948-1985 | every document survives Accept, Writer, each of the three ways to parse, and the value stack, unchanged |
| `RoundTrip.PeerReadsTotals` | src/main.cpp:845-855 | a peer reads back exactly the request totals that were written |
| `MemberIndex.FindAgrees` | include/rapidjson/document.h:2228-2238 | whatever entry the multimap finds, it finds one exactly when the scan does, of that name, and the scan's own when names are unique |
| `MemberIndex.AddExact` | include/rapidjson/document.h:2304-2318 | adding keeps the index exact |
| `MemberIndex.RemoveExact` | include/rapidjson/document.h:2320-2342 | removing by swapping with the last keeps it exact |
| `MemberIndex.SwapRemovedIs` | include/rapidjson/document.h:2320-2342 | removing takes exactly that member away, puts the last in its place and moves no other |
| `MemberIndex.EraseExact` | include/rapidjson/document.h:2344-2376 | erasing a range and renumbering what follows keeps it exact |
| `MemberIndex.FindByScan` | include/rapidjson/document.h:2282-2288 | the linear scan returns the first member of a name |
| `MemberIndex.Members.Reserve` | include/rapidjson/document.h:2191-2226 | reallocation moves members and iterators and keeps the contents and the index |
| `MemberIndex.Members.Add` | include/rapidjson/document.h:2304-2318 | a member is appended and the index stays exact |
| `MemberIndex.Members.Remove` | include/rapidjson/document.h:2320-2342 | the last member takes the place and the index stays exact |
| `MemberIndex.Members.Erase` | include/rapidjson/document.h:2344-2376 | a range is erased in order and the index stays exact |
| `MemberIndex.Members.Clear` | include/rapidjson/document.h:2240-2250 | no member and no index entry is left |
| `MemberIndex.Members.Find` | include/rapidjson/document.h:2228-2238 | the indexed lookup agrees with the scan |
| `WorkerRing.FetchInEveryRun` | src/main.cpp:485-499 | in every run, overflow included, a fetch at head k and tail t returns enqueue number k + C*((t-1-k)/C) |
| `WorkerRing.RefinesFifo` | src/main.cpp:343-353 | while the ring never overflows, what was fetched followed by what waits is what was enqueued, in order |
| `WorkerRing.WorkerQueue.Push` | src/main.cpp:343-353 | the array ring is written as specified |
| `WorkerRing.WorkerQueue.FetchNext` | src/main.cpp:485-499 | nothing is fetched from an empty or stopped queue; otherwise the head's slot |
| `Failover.EveryReachableState` | src/main.cpp:551-631 | over every history the labels are the two processors in some order with their URLs, and a processor is marked down exactly when its last answer was a 500 |
| `Failover.FailureMovesPrimary` | src/main.cpp:556-580 | a 500 makes the other processor primary unless that one is down too |
| `Failover.AfterFailure` | src/main.cpp:560-580 | after any history a 500 makes the other processor primary unless it failed last too, and changes no timing |
| `Failover.AfterAnswer` | src/main.cpp:583-602 | after any history any other answer records its time; the primary moves exactly when both had failed last, and where an evaluation is due to the one it picks by times and fee |
| `Failover.PrimaryAfterRecovery` | src/main.cpp:583-598 | after both failed, the first answer swaps the labels, and the new primary is up exactly when the old one was not the one that answered |
| `Failover.RecoveryMisleads` | src/main.cpp:583-598 | a history after which the primary is the one that is down |
| `Failover.EvaluationPicksBest` | src/main.cpp:634-663 | an evaluation leaves the processor primary that is better by times and fee exactly when the URLs differ or Default was primary |
| `Failover.OneUrlMisleads` | src/main.cpp:647-653 | a history with one URL for both after which it does not |
| `Payload.AmountKept` | src/main.cpp:735-750 | the amount text found in a payload is the one in the body, for every body and timestamp |
| `Payload.AmountIs` | src/main.cpp:739-750 | the amount text is exactly what stands between the first amount key and the next comma or brace |
| `Payload.AmountBetween` | src/main.cpp:739-750 | as in any text made of a beginning, the key, the amount and the rest |
| `Payload.NoAmount` | src/main.cpp:739-750 | there is none exactly when the key is absent or neither delimiter follows it |
| `Pipeline.AmountCounted` | src/main.cpp:739-757 | the amount counted is the number of that text, or zero |
| `Payload.StampedOnce` | src/main.cpp:666-694 | the payload has one `requestedAt`, at the end of the body, exactly when the body has none |
| `Payload.StampedTwice` | src/main.cpp:666-694 | a body that is sent with two |
| `ReaderLocality.ValueAgrees` | include/rapidjson/reader.h:1752-1765 | changing a text from a closing brace on leaves every value that ends before it as it was read |
| `StampedPayload.PayloadParses` | src/main.cpp:686-690 | the payload of a body read as an object is read to its end, with one member more, exactly when the object has a member and no trailing comma; otherwise a name is missed at the added comma |
| `StampedPayload.PayloadAddsMember` | src/main.cpp:686-690 | the document built from such a payload is the body's with `requestedAt` as its last member |
| `StampedPayload.EmptyObjectBreaks` | src/main.cpp:686-690 | the payload of "{}" is refused |
| `Ledger.StoreRefines` | src/main.cpp:751-757 | storing a payment keeps every bucket equal to the log total of its second |
| `Ledger.QueryIsRangeTotal` | src/main.cpp:361-391 | a query is the log total over from < 1000*second <= to, exactly when the range is empty by its bounds, or nothing is stored, or it neither ends before the start nor begins in the last second of 64-bit milliseconds |
| `Ledger.QueryBeforeStart` | src/main.cpp:375 | a range that ends before the start reports the whole log |
| `Ledger.QueryWraps` | src/main.cpp:371 | so does a range whose first second wraps around |
| `Ledger.LastSecondBefore1970` | src/main.cpp:371 | such a range, in which nothing can have happened |
| `Ledger.QueriesAdd` | src/main.cpp:361-391 | adjacent ranges add up exactly when nothing is stored or they meet neither before the start nor in that last second |
| `Pipeline.NextWellShaped` | src/main.cpp:424-482 | a step that overflows no ring keeps every body, worker number and timestamp usable |
| `PipelineSafety.NextConserves` | src/main.cpp:457-482 | every step moves payments between queues, calls, discards and the log without changing their weighted sum, for any weights |
| `PipelineSafety.ExactlyOnePlace` | src/main.cpp:424-482 | in every run without overflow each accepted payment is queued, in flight, discarded or counted, exactly once |
| `PipelineSafety.AtMostOneSuccess` | src/main.cpp:502-548 | over all its attempts and retries a payment gets at most one success |
| `PipelineSafety.BucketsCountSuccesses` | src/main.cpp:735-760 | the total of a processor's buckets plus its successes in flight is the number of its successes |
| `PipelineSafety.EverySendCarriesItsBody` | src/main.cpp:666-694 | every request ever sent carries the accepted body with the timestamp member added, and the body's amount; it has one `requestedAt` exactly when the body has none |
| `PipelineSafety.DroppedByFirst422` | src/main.cpp:523-544 | in every reachable state an answer makes the payment be dropped exactly when it is a 422 to the first request; a second answer never does |
| `PipelineProgress.ReliableRunWastesNoCall` | src/main.cpp:502-548 | while one processor is reliable every call of `process` has stored its payment or is under way, arrivals included, and nothing is discarded |
| `PipelineProgress.OneCallEach` | src/main.cpp:424-548 | from any reachable state with idle threads and n payments queued, whatever came before, a reliable run without arrivals cannot go on exactly when everything is stored; it has then made exactly n calls, stored exactly those n payments and discarded none, in at most 6n steps |
| `PipelineProgress.PaymentsDrain` | src/main.cpp:424-548 | and such a run exists |
| `PipelineProgress.RunIsBounded` | src/main.cpp:424-455 | a reliable run without arrivals has no more steps than the potential it starts with |
| `PipelineProgress.NeverStuck` | src/main.cpp:424-455 | while anything is queued or in flight there is a next step that is reliable and overflows no ring |
| `PaymentService.CallIsItsSteps` | src/main.cpp:457-548 | a whole call of `process` with nothing in between is its steps in the state machine: routing, queue, buckets and discards end up as the method leaves them |
| `PaymentService.CallIsItsEvents` | src/main.cpp:502-548 | after any history a call leaves the routing that its probe and answers lead to |
| `PaymentService.PoolCallEvaluates` | src/main.cpp:505-521 | a pool call that succeeds calls the secondary and leaves the primary that the evaluation picks |
| `PaymentService.CallDiscards` | src/main.cpp:523-544 | a call drops its payment exactly when the first answer is a 422 |
| `PaymentService.Second422Retries` | src/main.cpp:541-547 | a 500 and then a 422 queue it again |
| `PaymentService.PaymentService.SwitchOver` | src/main.cpp:615-631 | labels and URLs are swapped together |
| `PaymentService.PaymentService.Evaluate` | src/main.cpp:634-663 | the timing comparison as specified |
| `PaymentService.PaymentService.React` | src/main.cpp:551-602 | the reaction to an answer as specified |
| `PaymentService.PaymentService.StoreProcessed` | src/main.cpp:735-760 | the bucket of the second is updated in place |
| `PaymentService.PaymentService.QueryRange` | src/main.cpp:361-391 | the summing loop computes the query |
| `PaymentService.PaymentService.ProcessPayment` | src/main.cpp:502-548 | one or two requests, to the labels captured at the start, and the result |
| `PaymentService.PaymentService.Process` | src/main.cpp:457-482 | the payment is queued again, dropped or counted, and nothing else changes |
| `MemoryPool.MallocValid` | include/rapidjson/allocators.h:321-334 | null exactly for size zero or a failed base allocation; otherwise a new aligned block inside its chunk, apart from all others |
| `MemoryPool.MallocPlaces` | include/rapidjson/allocators.h:321-334 | in numbers: the block comes from the head chunk exactly when the rounded size is free there, and otherwise from a new chunk of the larger of that size and the chunk capacity |
| `MemoryPool.LastBlockTest` | include/rapidjson/allocators.h:353-359 | the pointer comparison holds exactly for the last block of the head chunk with its whole length, whatever other chunks exist |
| `MemoryPool.ReallocMoves` | include/rapidjson/allocators.h:337-369 | a block keeps its address exactly when it suffices or can grow in place |
| `MemoryPool.ReallocValid` | include/rapidjson/allocators.h:337-369 | blocks stay aligned, inside their chunk and disjoint |
| `MemoryPool.ReallocKeepsContents` | include/rapidjson/allocators.h:361-369 | the result starts with the old bytes, and no other block's bytes change |
| `PoolRuns.ClearFreesAll` | include/rapidjson/allocators.h:277-288 | clearing frees every added chunk that is left, each once, and keeps the first, empty |
| `PoolRuns.EveryRun` | include/rapidjson/allocators.h:321-369 | over any sequence of Malloc, Realloc and Clear the blocks are valid and every added chunk is in the list or freed exactly once |
| `PoolRuns.AssignCopyMeans` | include/rapidjson/allocators.h:224-233 | copy assignment changes nothing between owners of one pool, and otherwise releases and then attaches |
| `PoolRuns.AssignMoveCounted` | include/rapidjson/allocators.h:244-253 | move assignment, to itself included, keeps the counts |
| `PoolRuns.EveryHistory` | include/rapidjson/allocators.h:216-274 | over any history of copies, moves, assignments, destructions and uses the reference counts are exact and no owner refers to a released pool |
| `PoolRuns.AllOwnersGone` | include/rapidjson/allocators.h:259-274 | a pool is released exactly when its last owner goes, and then every added chunk has been freed once |
| `PoolAllocator.MemoryPoolAllocator.FromBuffer` | include/rapidjson/allocators.h:201-214 | a user buffer is aligned and its rest becomes the first chunk |
| `PoolAllocator.MemoryPoolAllocator.Malloc` | include/rapidjson/allocators.h:321-334 | allocation in place as specified |
| `PoolAllocator.MemoryPoolAllocator.Realloc` | include/rapidjson/allocators.h:337-369 | reallocation in place as specified |
| `PoolAllocator.MemoryPoolAllocator.Clear` | include/rapidjson/allocators.h:277-288 | the loop frees the chunks as specified |
| `PoolAllocator.MemoryPoolAllocator.Capacity` | include/rapidjson/allocators.h:293-299 | the sum over all chunks |
| `PoolAllocator.MemoryPoolAllocator.Size` | include/rapidjson/allocators.h:304-310 | the sum over all chunks |
| `PoolAllocator.MemoryPoolAllocator.Destruct` | include/rapidjson/allocators.h:259-274 | the count goes down, or the pool is cleared by its last owner |
| `PoolAllocator.MemoryPoolAllocator.AssignCopy` | include/rapidjson/allocators.h:224-233 | the left-hand side shares the right-hand side's pool, counted |
| `PoolAllocator.MemoryPoolAllocator.AssignMove` | include/rapidjson/allocators.h:244-253 | the pool changes hands |
| `DotSegments.TurnSimulates` | include/rapidjson/uri.h:418-455 | one turn of the two-cursor loop is one rule of the output-buffer algorithm of section 5.2.4 of RFC 3986 |
| `DotSegments.NormalizedTwice` | include/rapidjson/uri.h:411-458 | the normal form is absolute, has no dot segments and is its own normal form |
| `PathSegments.RemoveWalks` | include/rapidjson/uri.h:411-458 | the algorithm, read on segments, is a walk on a stack: "." stays, ".." goes up |
| `PathSegments.NormalizedWalks` | include/rapidjson/uri.h:411-458 | the normal form of a path is the path of where its segments lead |
| `Uri.RemoveDotSegments` | include/rapidjson/uri.h:411-458 | in place, every absolute path becomes its normal form, and nothing outside it is written |
| `Uri.PartsMakeTheWhole` | include/rapidjson/uri.h:277-372 | the five parts in order are the input |
| `Uri.RegexSplitsOneWay` | include/rapidjson/uri.h:274-276 | the regular expression of appendix B of RFC 3986, each group taken when it can be, matches every text in exactly one way |
| `Uri.SplitFollowsRegex` | include/rapidjson/uri.h:277-372 | the split is that match exactly when the text does not begin with a colon; then the scheme is the colon alone |
| `Uri.SevenStringsFit` | include/rapidjson/uri.h:234-264 | the seven strings with their terminators fit in 3*len+7 units |
| `UriParser.GenericUri.Parse` | include/rapidjson/uri.h:277-395 | the buffer holds the five parts with only an absolute path normalised, the base and the URI, one behind the other |
| `UriParser.PathInBuffer` | include/rapidjson/uri.h:319-337 | the path string in the buffer is where the segments of an absolute path lead, without dot segments, and any other path unchanged |
| `UriParser.FindEnds` | include/rapidjson/uri.h:281-365 | the scanning loops find the ends of the parts |
| `Pointer.StringRoundTrip` | include/rapidjson/pointer.h:1068-1100 | the string form of any names parses to those names |
| `Pointer.FragmentRoundTrip` | include/rapidjson/pointer.h:1068-1100 | so does the URI fragment form where it can be printed |
| `Pointer.FragmentPrints` | include/rapidjson/pointer.h:1087-1094 | it can be printed exactly when every name is well-formed UTF-8 |
| `PointerTokens.NameIsTokenValue` | include/rapidjson/pointer.h:996-1024 | a token is read as section 4 of RFC 6901 says, "~1" replaced first and then "~0", and refused exactly when a "~" stands before anything else |
| `PointerTokens.TripletIs` | include/rapidjson/pointer.h:1119-1138 | a percent sign and two hex digits stand for the byte they write |
| `PointerTokens.PercentEncodeIs` | include/rapidjson/pointer.h:1156-1162 | a byte is printed as a percent sign and its two upper-case hex digits |
| `PointerTokens.FragmentOfAscii` | include/rapidjson/pointer.h:918-920 | what the fragment form prints for each ASCII character |
| `Pointer.TokensAreCounted` | include/rapidjson/pointer.h:939-945 | a successful parse has exactly as many tokens as there are solidi |
| `Pointer.AccumulateWraps` | include/rapidjson/pointer.h:1032-1042 | the loop gives up exactly when some digit makes the 32-bit number smaller, and otherwise ends with the number written modulo 2^32 |
| `Pointer.IndexIsExact` | include/rapidjson/pointer.h:1028-1045 | the index of every index text; it is the number written exactly when that fits in 32 bits, and can be used as one exactly when it is below 2^32 - 1 |
| `Pointer.LastIndexIsLost` | include/rapidjson/pointer.h:1028-1045 | 4294967295 fits and is no index |
| `Pointer.OverflowMissed` | include/rapidjson/pointer.h:1036-1037 | a number that does not fit and passes |
| `PointerParser.GenericPointer.Parse` | include/rapidjson/pointer.h:930-1059 | the tokens and names, or the error and its offset; one token for each solidus and a name buffer as long as the source |
| `PointerParser.FillTokens` | include/rapidjson/pointer.h:961-1047 | the token loop stays within both buffers and computes the specified names |
| `PointerParser.PercentPiece` | include/rapidjson/pointer.h:972-990 | a percent-encoded character is validated, and even a failing one is written inside the buffer |
| `PointerParser.ComputeIndex` | include/rapidjson/pointer.h:1028-1045 | the index loop computes the index of the name |
| `PointerParser.Stringify` | include/rapidjson/pointer.h:1068-1100 | the loop prints the string form |
| `PointerParser.StringifyFragment` | include/rapidjson/pointer.h:1068-1100 | the loop prints the URI fragment form, and fails exactly where there is none |
| `PointerResolve.CreateFindsExisting` | include/rapidjson/pointer.h:458-505 | "already exists" is reported exactly when Get resolved before, and then nothing changes |
| `PointerResolve.GetAfterSet` | include/rapidjson/pointer.h:601-629 | after Set, Get returns the value exactly when no '-' token met an array, and otherwise nothing |
| `PointerResolve.DashDoesNotResolve` | include/rapidjson/pointer.h:463-467 | a Set at "-" that Get does not find |
| `PointerResolve.SetThenCreate` | include/rapidjson/pointer.h:732-734 | after such a Set, Create finds the value and changes nothing |
| `PointerResolve.GetFollowsTokens` | include/rapidjson/pointer.h:601-629 | Get finds exactly the value that the tokens lead to by section 4 of RFC 6901, when no token writes a number from 2^32 - 1 on |
| `PointerResolve.LargeIndexMisleads` | include/rapidjson/pointer.h:601-629 | a larger number that leads to an element it does not write |
| `PointerResolve.SetLeavesOthers` | include/rapidjson/pointer.h:458-505 | Set leaves the value at every other pointer alone that leaves its way at a container it keeps |
| `PointerResolve.SetCanReplace` | include/rapidjson/pointer.h:469-480 | a container it does not keep |
| `SchemaEquivalence.StreamingDecidesValidity` | include/rapidjson/schema.h:2799-2891 | feeding a value's events to a fresh validator ends valid, with nothing left open, exactly when the value satisfies the schema, stated over its rows, items and bounds |
| `SchemaEquivalence.FeedValue` | include/rapidjson/schema.h:2980-3054 | inside any open validator, a value either makes it invalid or only moves it past the value and feeds the parallel validators |
| `SchemaEquivalence.SubsAgreeMeans` | include/rapidjson/schema.h:944-985 | the verdict on the parallel validators is allOf, anyOf, exactly-one and not |
| `SchemaEquivalence.MemberSchemaDecides` | include/rapidjson/schema.h:1104-1166 | the schema chosen for a member decides that every row of its name is satisfied, or that it may be additional |
| `SchemaEquivalence.FeedMembers` | include/rapidjson/schema.h:1104-1166 | the marks of an object name exactly the properties that were among its members |
| `SchemaHandler.Agree` | include/rapidjson/schema.h:944-985 | the loops over the verdicts compute it |
| `SchemaHandler.GenericSchemaValidator.Handle` | include/rapidjson/schema.h:2799-2891 | every handler updates the context stack, the parallel validators and the verdict as specified |
| `SchemaHandler.GenericSchemaValidator.BeginValue` | include/rapidjson/schema.h:2980-3008 | a value's schema is chosen by the context above, and its own context is pushed |
| `SchemaHandler.Validate` | include/rapidjson/schema.h:2799-2891 | the object's verdict on a document is the recursive definition's |
| `Hasher.OneHashPerValue` | include/rapidjson/schema.h:336-385 | a value's events leave exactly one more hash on the stack, the value's |
| `Hasher.OrderDoesNotMatter` | include/rapidjson/schema.h:362-371 | reordering object members at any depth leaves the hash unchanged |
| `Hasher.CarrierDoesNotMatter` | include/rapidjson/schema.h:338-348 | so does replacing numbers by others that carry the same ones, as integers of any width or as doubles that hold them exactly |
| `Hasher.DoubleHashesAsInteger` | include/rapidjson/schema.h:342-348 | an integer and a literal are hashed from the same bytes exactly when their doubles are the same and no digit of the integer is lost |
| `Hasher.DigestDepends` | include/rapidjson/schema.h:404-418 | one byte changed anywhere, or another type, gives another hash |
| `Hasher.ElementShows` | include/rapidjson/schema.h:374-381 | an array with one element replaced has the same hash exactly when the element has |
| `Hasher.MemberShows` | include/rapidjson/schema.h:362-371 | an object with one name or value replaced has the same hash exactly when that has |
| `Fnv.MixInjective` | include/rapidjson/schema.h:413-418 | one step of the hash is one-to-one in the data and in the hash before |
| `Fnv.HashOfA` | include/rapidjson/schema.h:404-418 | the published FNV-1a hash of "a" |
| `Hasher.Hasher.WriteBuffer` | include/rapidjson/schema.h:404-412 | the FNV-1a loop over a buffer |
| `Hasher.Hasher.EndObject` | include/rapidjson/schema.h:362-371 | the loop over popped keys and values |
| `Hasher.Hasher.EndArray` | include/rapidjson/schema.h:374-381 | the loop over popped elements |

## Left out

- HTTP, curl, restbed, environment variables, sleeps, threads as an API and profiling: input and output.
- Data races on unsynchronised fields: each step named above is atomic.
- Rounding of doubles, `dtoa` and `strtod`: doubles are literals and amounts are exact.
- SIMD scanning, in-situ parsing, comments, NaN and Inf, the validate-encoding and stop-when-done flags, UTF-16 and UTF-32: they add cases and no harder claim.
- Remote and `$ref` schemas, `default`, `enum`, `uniqueItems`, patterns, dependencies, numeric and string limits, schema-valued additional items and properties, continue-on-error and error reports.
- Ownership of the base allocator and wrap-around of `size_t` in the memory pool.
- 48-bit pointer packing and short-string storage in values: representation only.
- `GenericPointer` append, erase, swap and comparison, and `GenericUri::Resolve`.
- PointerResolve.CreateFindsExisting: Create and Set are functions on values, so references into the document and reuse of its memory are not captured.
- PointerResolve.GetAfterSet: stated on values for the same reason.
- SchemaHandler.GenericSchemaValidator.Handle: the parallel validators are kept as values between events, so sharing of validator objects is not captured.
- PoolAllocator.MemoryPoolAllocator.Malloc: the linked chunk list is a sequence; header fields stored inside the chunk's own memory are not written through it.
- PaymentService.PaymentService.Process: one uninterrupted call; interleavings are the subject of `Pipeline` and `PipelineSafety`.
- WorkerRing.FetchInEveryRun: head and tail are unbounded numbers, so wrap-around after 2^64 enqueues is not modelled.
