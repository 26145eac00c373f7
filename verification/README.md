# Verified model of isaac_ros_service

This project models the protocol code of the repository in Dafny and proves what it promises:

- **The HTTP server of `full_server/`.** `HttpSyntax` writes the request language of HTTP/1.0 (sections 2.2, 4.2
  and 5.1 of RFC 1945, with folded headers) as a grammar with derivations, their bytes and their meaning.
  `RequestParser` is the 21-state parser, as a class that fills a request object and as a step function.
  `ParserSoundness` and `ParserLanguage` prove that parser and grammar agree byte for byte; `Canonical` and
  `VersionRange` treat printing requests and the range of the version arithmetic. `UrlDecoding`, `RequestHandler`
  and `Reply` cover the URL decoder, path checks, file replies and the reply printer with a reader for it.
  `HttpConnection` puts them together as a connection driven by completion callbacks.
- **The queues.** `ConcurrentQueue` is the mutex and condition-variable queue of `src/Connection.hpp`, interleaved at
  every lock, unlock, wait and notify, for any number of threads and with spurious wakeups. `WorkerPipeline` is its
  client in `test/b_thread.cpp`, and `LockedPipeline` puts the two together: the workers on two such queues, every step
  of every thread interleaved, simulate the pipeline of atomic queue operations. `ShutdownProtocol` is the
  producer/consumer shutdown of `example/lockfree_queue.cpp`.
- **Framing and the service file.** `Framing` is the length-prefixed stream of `ex_serialization/connection.hpp`, `Csv`
  the trimming and splitting of `helpers/helper.cpp`, `ServiceBridge` the registration of services and the thread plan
  of `test/test01_server.cpp`.

Bytes are numbers from 0 to 255; the character classes give the same answer for bytes above 127 whether `char` is
signed or not. The field `method` of a request is called `verb`, because `method` is a keyword. Version numbers,
status and integers of a new object are not initialised in the source, so every theorem holds for any initial value.
Objects the source updates in place are classes; their methods are proved against functions on values, and the
theorems are about those functions. Library behaviour that cannot be seen is a parameter: what `>> std::hex`
makes of two characters or of a header, what `stoull` accepts, which files can be opened, and the doubling of a payload.

Three promises of the source do not hold as written, and the model says exactly when they do:

- `split_CSV_line` is documented to return the fields between delimiters. It drops a last piece of one byte, and it
  cuts the last byte off a line without delimiter (`Csv.SplitIsCleanPieces`, `Csv.SplitJoined`). So a line of the
  service file whose last length is a single digit is not read as a service (`ServiceBridge.WrittenLineIsRead`, and
  `ServiceBridge.DocumentedLineIsSkipped` for the line `a,1,4,8`).
- The version numbers are `int`s; reading one overflows unless its value is at most INT_MAX - 48, in requests that are
  accepted, rejected or incomplete alike (`VersionRange.RunFitsInt`; `VersionRange.TenNinesOverflow` for
  `G / HTTP/9999999999x`).
- `process_one` tests `empty` before `wait_and_pop` so as not to wait. That works exactly when there is at most one worker
  (`WorkerPipeline.NeverBlocksIffAtMostOneWorker`, `LockedPipeline.SleepsIffTwoWorkers`).

## Model

| member | source | states |
|---|---|---|
| RequestParser.Parser.Consume | full_server/request_parser.cpp:27-294 | one byte takes state and request object exactly where the step function takes their values, with the same verdict |
| RequestParser.Parser.Parse | full_server/request_parser.hpp:36-48 | the loop gives verdict, stopping position, state and request of the parse function over the bytes between begin and end |
| RequestParser.Parser.Reset | full_server/request_parser.cpp:22-25 | back to the start state |
| HttpSyntax.Alphabets | full_server/request_parser.cpp:296-323 | the bytes of tokens are letters, digits and fifteen marks; those of a URI 33 to 126 and from 128; those of a value also the space; blanks are space and tab |
| RequestParser.RunAppend | full_server/request_parser.hpp:36-48 | parsing can be interrupted anywhere: an undecided first part hands over to the rest, a decided one ignores it |
| ParserSoundness.StepAdvances | full_server/request_parser.cpp:29-293 | a byte is rejected iff no derivation continues with it; otherwise the piece of the derivation read so far and the recorded request grow together |
| ParserSoundness.UndecidedIsExplained | full_server/request_parser.cpp:27-294 | whenever the parser is undecided its input is an initial piece of a derivation, its state says which one, and the request holds exactly what was read |
| ParserSoundness.AcceptedIsSentence | full_server/request_parser.cpp:27-294 | what is accepted is a derivation's bytes and the request is that derivation's meaning |
| ParserLanguage.SentenceIsAccepted | full_server/request_parser.cpp:27-294 | every derivation is accepted with its meaning, using exactly its own bytes, whatever follows |
| ParserLanguage.AcceptsExactlySentences | full_server/request_parser.hpp:27-30 | parse returns true after n bytes iff the first n bytes are a sentence of the grammar |
| ParserLanguage.UndecidedExactlyOnProperPrefixes | full_server/request_parser.hpp:27-30 | parse asks for more iff the input can be continued to a sentence by at least one byte |
| ParserLanguage.RejectsAtFirstHopelessByte | full_server/request_parser.hpp:27-30 | parse returns false after n bytes iff byte n is the first after which no sentence is possible |
| ParserLanguage.PrefixFree | full_server/request_parser.hpp:27-30 | no accepted request begins another |
| ParserLanguage.Unambiguous | full_server/request_parser.cpp:27-294 | a byte string has at most one derivation |
| Canonical.PrintThenParse | full_server/request_parser.hpp:36-48 | printing any well-formed request and parsing it, with any bytes behind it, returns true after exactly the print and rebuilds the request |
| Canonical.Canonicalisation | full_server/request_parser.cpp:197-278 | an accepted input has one derivation; the request is well-formed, its print reparses to it and is no longer than the input, and as long iff there was no fold and no leading zero |
| Canonical.CanonicalLength | full_server/request_parser.cpp:197-278 | an input is longer than the print of its request by exactly two bytes and the blanks for each fold, plus the leading zeros |
| Canonical.FoldedValue | full_server/request_parser.cpp:203-238 | wherever a field stands, it and its continuation lines add one header whose value is the pieces with nothing between them |
| Canonical.GetIsAccepted | full_server/request_parser.hpp:36-48 | a GET request with a User-Agent field and a folded line, given byte by byte, is accepted with exactly its method, URI, version and header |
| Canonical.ReachableStates | full_server/request_parser.cpp:27-294 | in every reachable state: never `uri_start`; there is a header wherever `headers.back()` is used; names are non-empty tokens; no more bytes are stored than read |
| Canonical.VersionsRead | full_server/request_parser.cpp:123-186 | while a version number is read it equals the decimal value of its digits so far |
| VersionRange.RunFitsInt | full_server/request_parser.cpp:27-294 | for any bytes, accepted, rejected or incomplete: no step overflows a 32-bit int iff the version numbers read before the decision are at most INT_MAX - 48 |
| VersionRange.RequestFitsInt | full_server/request_parser.cpp:135-186 | parsing a request, whatever follows it, overflows in no step iff both version numbers are at most INT_MAX - 48 = 2147483599 |
| VersionRange.NineDigitsFit | full_server/request_parser.cpp:135-186 | no input overflows as long as neither version number read has more than nine significant digits, leading zeros not counted |
| VersionRange.TenNinesOverflow | full_server/request_parser.cpp:135-159 | an input that overflows and is then rejected |
| UrlDecoding.UrlDecode | full_server/request_handler.cpp:82-119 | the loop computes the decoding function and fails exactly where it has no result |
| UrlDecoding.DecodesExactlyUnits | full_server/request_handler.cpp:82-119 | decoding gives a result iff the input is made of literals, plus signs and readable escapes that mean it |
| UrlDecoding.DecodedLength | full_server/request_handler.cpp:82-119 | result length plus twice the number of escapes is the input length |
| UrlDecoding.DecodeConcatenation | full_server/request_handler.cpp:82-119 | if the first part decodes, the whole decodes iff the second part does, to both results in order |
| UrlDecoding.DecodeInvertsEncoding | full_server/request_handler.cpp:82-119 | decoding undoes every legal choice of literal, escape in either case or plus for a space, for every byte string |
| UrlDecoding.EscapedLetter | full_server/request_handler.cpp:82-119 | the five bytes %41+a decode to A, space, a |
| RequestHandler.HandleRequest | full_server/request_handler.cpp:28-80 | the reply object ends up as the answer function of request, files and what it held before |
| RequestHandler.AppendFile | full_server/request_handler.cpp:72-74 | the 512-byte loop appends exactly the file |
| RequestHandler.PathOfRequest | full_server/request_handler.cpp:30-50 | there is a path iff the URI decodes to an absolute one without two adjacent dots; one that ends in a slash stands for its index.html, any other for itself |
| RequestHandler.LookupStaysUnderRoot | full_server/request_handler.cpp:38-64 | whatever is requested, the file looked up is the root followed by a path that starts with a slash, has no "..", and whose depth is never negative at any segment, also after the cut at a NUL |
| RequestHandler.ExtensionIsPlain | full_server/request_handler.cpp:52-59 | the last slash exists; the extension is exactly what follows the last dot of the last segment, without slash or dot, and empty without such a dot |
| RequestHandler.TypeOfExtension | full_server/mime_types.cpp:17-43 | which extensions have which of the four special types; all others are plain text |
| RequestHandler.CStringEndsAtZero | full_server/request_handler.cpp:61-63 | a zero byte ends the path that is opened |
| RequestHandler.AnswerIsLabelled | full_server/request_handler.cpp:70-79 | every answer has a listed status, the length of its content in Content-Length and a Content-Type |
| RequestHandler.StockIsLabelled | full_server/reply.cpp:242-253 | every stock reply declares the length of its content and that it is HTML |
| RequestHandler.AnswerOnTheWire | full_server/request_handler.cpp:28-80 | a client reads back status, headers and content; Content-Length counts the bytes after the blank line; 400 iff no acceptable path, 404 iff no file for it; a success on an empty reply carries exactly the file |
| Reply.ReplyRecord.ToBuffers | full_server/reply.cpp:103-118 | the buffers in order are the status line, the headers, a blank line and the content |
| Reply.ReplyRecord.AssignStock | full_server/reply.cpp:242-253 | the object becomes the stock reply of the status |
| Reply.StatusTextShape | full_server/reply.cpp:20-92 | each status line carries its own three-digit code on one line; any other value goes out as 500 |
| Reply.StatusLineText | full_server/reply.cpp:20-52 | a status line is HTTP/1.0, code and reason phrase, and a line break |
| Reply.StockPages | full_server/reply.cpp:120-240 | the page of a stock reply has the reason phrase of its own status line as title and that line as heading; 200 has no page, and the heading for 204 lacks a word in the source |
| Reply.ReplyRoundTrip | full_server/reply.cpp:103-118 | for every status, every header list with names free of CR and colon and values free of CR, and every content, a reader gets the reply back |
| HttpConnection.Connection.HandleRead | full_server/connection.cpp:41-80 | a completed read takes the connection object where the callback function takes its value: parse, then answer, refuse or read on |
| HttpConnection.Connection.HandleWrite | full_server/connection.cpp:82-95 | a completed write closes the connection unless it failed, and starts nothing |
| HttpConnection.RunIsDetermined | full_server/connection.cpp:32-95 | every possible run of completions leaves the connection as one parse over all received bytes determines |
| HttpConnection.ChunkingIndependence | full_server/connection.cpp:41-80 | however a stream is cut up, a connection that has decided has the verdict, request and response of one parse of the stream; otherwise it can still accept |
| HttpConnection.OneOperationUntilTheEnd | full_server/connection.cpp:76-95 | exactly one operation is under way until a read error or a completed write, and none after it; the socket is shut down exactly by a write that succeeded |
| HttpConnection.HandledAtMostOnce | full_server/reply.hpp:51-54 | at most one call of handle_request, always with an empty reply; at most one write, and its reply is unchanged while it lasts; the parser can be resumed in every state |
| HttpConnection.WireIsReadable | full_server/connection.cpp:50-66 | whatever is received, what is sent reads as a reply with status 200, 400 or 404 and the right length |
| HttpConnection.RequestedFileIsServed | full_server/connection.cpp:41-80 | a printed request for a path, encoded in any legal way and cut up in any way, is answered exactly when complete, with status 200 and exactly the file, or index.html for a path that ends in a slash, and with the stock reply 404 if there is none |
| HttpConnection.HopelessBytesAreRefused | full_server/connection.cpp:59-66 | bytes that contain no request and cannot become one are answered by the stock reply 400, whatever the chunks |
| HttpConnection.CompletionsArePossible | full_server/connection.cpp:32-95 | in every reachable state exactly the operations under way can complete |
| ConcurrentQueue.AlwaysInvariant | src/Connection.hpp:104-138 | mutual exclusion, lasting tests, FIFO and wakeup cover hold in every reachable state |
| ConcurrentQueue.LinearisableFifo | src/Connection.hpp:104-138 | values pushed in lock order are those popped in lock order followed by the queue; one thread at most is inside; front and pop never meet an empty queue; empty answers truthfully; a pop hands out the value it removed, and try_pop has none only if the queue is empty |
| ConcurrentQueue.OnlyTheHolderChanges | src/Connection.hpp:104-133 | the queue changes only by the thread that holds the mutex, which adds its own value at the end or takes the first |
| ConcurrentQueue.CallsAreAtomic | src/Connection.hpp:104-138 | each call of push, try_pop, wait_and_pop, empty and clear has its sequential effect in one step of its own, answers what that step found, and returns only after it; no step of another thread moves it |
| ConcurrentQueue.EveryCallIsAtomic | src/Connection.hpp:104-138 | the same for every step of every run |
| ConcurrentQueue.CallReturns | src/Connection.hpp:104-138 | a call comes to its end by its own steps when no other thread holds the mutex, wait_and_pop if a value is queued, also if it was asleep |
| ConcurrentQueue.AnyCallCanBeMade | src/Connection.hpp:104-138 | an idle thread can make each of the five calls, and by its own steps the call returns if the mutex is free and wait_and_pop finds a value |
| ConcurrentQueue.KeepsWakeups | src/Connection.hpp:104-133 | every step keeps: if a consumer sleeps, queued values are covered by pending notifications and woken consumers |
| ConcurrentQueue.QueueIsCovered | src/Connection.hpp:104-133 | with a sleeper and the mutex free, the queue is at most the producers before notify_one plus the woken consumers before their recheck |
| ConcurrentQueue.NeverOnlySleepers | src/Connection.hpp:104-133 | if a consumer sleeps while the queue is not empty, another thread is in a call and can go on |
| WorkerPipeline.AlwaysConserved | test/b_thread.cpp:75-84 | for any number of workers, mapped inputs supplied are outputs produced plus items in hand plus mapped inputs waiting |
| WorkerPipeline.AllProcessed | test/b_thread.cpp:75-84 | when no worker has an item in hand and the input is used up, the outputs are the mapped inputs, each once |
| WorkerPipeline.CanFinish | test/b_thread.cpp:75-84 | from every reachable state the workers can process all inputs, each once, with no more being supplied |
| WorkerPipeline.SingleWorker | test/b_thread.cpp:75-84 | one worker keeps the order, so its outputs are a prefix of the mapped inputs, and never waits in wait_and_pop |
| WorkerPipeline.NeverBlocksIffAtMostOneWorker | test/b_thread.cpp:79-80 | wait_and_pop after the empty test never has to wait iff there is at most one worker |
| LockedPipeline.StepSimulates | test/b_thread.cpp:75-84 | each step of a thread inside the queues is one atomic operation of the pipeline or none |
| LockedPipeline.Refines | test/b_thread.cpp:75-84 | every run of workers and other threads on the locked queues is a run of the atomic pipeline, with the same inputs and outputs |
| LockedPipeline.AllProcessed | test/b_thread.cpp:75-84 | on the locked queues: when all calls have returned and the input is used up, the outputs are the mapped inputs, each once |
| LockedPipeline.SingleWorkerNeverSleeps | test/b_thread.cpp:79-80 | on the locked queues: a single worker keeps the order and never goes to sleep in wait_and_pop |
| LockedPipeline.EveryRunRealised | test/b_thread.cpp:75-84 | conversely, every run of the atomic pipeline can be made by threads on the locked queues |
| LockedPipeline.SleepsIffTwoWorkers | test/b_thread.cpp:79-80 | on the locked queues: some run puts a worker to sleep in wait_and_pop iff there are at least two workers |
| ShutdownProtocol.AlwaysInvariant | example/lockfree_queue.cpp:31-72 | in every reachable state each value drawn is in one place once, the counters agree, done means all producers have finished, and an exited consumer means an empty queue |
| ShutdownProtocol.ShutdownIsComplete | example/lockfree_queue.cpp:53-76 | after the last join the values popped and left are 1..P*n once each, both counters fit, and the queue is empty iff there is a consumer or nothing to produce |
| ShutdownProtocol.CanComplete | example/lockfree_queue.cpp:31-76 | from every reachable state some continuation takes main past its last join |
| ShutdownProtocol.AnyConsumerCanDrain | example/lockfree_queue.cpp:42-51 | at any time, before or after done, a consumer that has not left can empty the queue in order by its own steps |
| ShutdownProtocol.EagerMainLosesValues | example/lockfree_queue.cpp:69-72 | with done set before the joins, for any number of producers and iterations, there is a completed run that leaves values behind |
| ShutdownProtocol.EarlyJoinIsStuck | example/lockfree_queue.cpp:69-72 | with the consumers joined before done is set, main never gets past that join |
| ShutdownProtocol.OnlyThisOrderWorks | example/lockfree_queue.cpp:69-72 | with at least one producer, consumer and iteration: of the six orders of the two joins and the setting of done, exactly the one in the source can complete and never leaves a value behind |
| Framing.HeaderFits | ex_serialization/connection.hpp:59-69 | the formatted length has eight characters iff it is below 16^8 |
| Framing.FrameOfTwentySix | ex_serialization/connection.hpp:59-70 | a payload of 26 bytes is sent after six spaces and 1a |
| Framing.ReadFormatted | ex_serialization/connection.hpp:60-62 | for lengths that fit the header, formatting with left padding and reading hexadecimal are inverse, for any reader that reads blanks and digits of header length |
| Framing.StrictReadQualifies | ex_serialization/connection.hpp:108-127 | a reader into a 64-bit size, failing on more digits than it holds, is among the readers the stream theorems speak of |
| Framing.Connection.AsyncWrite | ex_serialization/connection.hpp:51-78 | sends one frame, or refuses and sends nothing, exactly when the payload has 16^8 bytes or more |
| Framing.Connection.HandleReadHeader | ex_serialization/connection.hpp:99-129 | a readable header resizes the data buffer and starts a read of that size; an error or an unreadable header is reported |
| Framing.Connection.ReadStream | ex_serialization/connection.hpp:99-161 | repeated reading delivers the messages of the reception function |
| Framing.StreamRoundTrip | ex_serialization/connection.hpp:26-31 | reading the frames of any list of sendable payloads gives exactly the list |
| Framing.StreamPrefix | ex_serialization/connection.hpp:99-161 | any initial part of the stream gives exactly the messages complete in it, and no error |
| Csv.SplitCsvLine | helpers/helper.cpp:25-61 | the two loops compute the splitting function |
| Csv.SplitIsCleanPieces | helpers/helper.cpp:39-57 | splitting gives the trimmed non-blank pieces iff the last piece is blank, or follows a delimiter and has two bytes, or is alone and ends in whitespace |
| Csv.SplitJoined | helpers/helper.cpp:25-61 | splitting undoes joining of trimmed fields with whitespace around them iff the last piece has two bytes, or is alone and ends in whitespace |
| Csv.LastByteIsLost | helpers/helper.cpp:45-49 | a last field of one byte is lost and the others are kept |
| Csv.TrimShape | helpers/helper.cpp:5-23 | trimming cuts only whitespace, and what is left neither begins nor ends with it |
| Csv.TrimPadded | helpers/helper.cpp:19-23 | whatever whitespace surrounds a trimmed field, trimming gives the field |
| Csv.TrimIdempotent | helpers/helper.cpp:19-23 | trimming twice is trimming once |
| Csv.WhitespaceRange | helpers/helper.hpp:43 | whitespace is the space and the bytes 9 to 13 |
| ServiceBridge.Server.ParseServiceFile | test/test01_server.cpp:28-85 | registers the services of the lines in turn, keeps serviceNames the set of their topics, has one iff some line is valid, and stops at the first line with a number that cannot be read |
| ServiceBridge.WrittenLineIsRead | test/test01_server.cpp:50-64 | a line of any number of fields, with any whitespace around them, is read by its first four as name, queue size and two lengths, acceptable iff both are at most 32; it counts as too short iff fewer than four fields are found, a last field of a single byte not counting |
| ServiceBridge.DocumentedLineIsSkipped | test/test01_server.cpp:46-56 | a line in the documented format that is not read as a service |
| ServiceBridge.RegistrationOrder | test/test01_server.cpp:48-79 | services come in the order of the first valid line of each name, each with that line's queue size; every valid name is registered, oversized lines notwithstanding |
| ServiceBridge.TopicsAreDistinct | test/test01_server.cpp:64-78 | no two services have the same topic |
| ServiceBridge.ServicesIffSomeValid | test/test01_server.cpp:48-79 | there is a service after the file is read, so that init_server does not divide by zero, iff some line is valid |
| ServiceBridge.Server.InitServer | test/test01_server.cpp:99-122 | the fields hold the plan for a limit of twice the hardware threads, the total exceeds the limited request by (n - 1) times its remainder, and exactly that many threads are created |
| ServiceBridge.PlanBound | test/test01_server.cpp:100-106 | the total exceeds the smaller of limit and request by (n - 1) times the remainder, so by at most (n - 1)^2, and the limit by no more; every service gets a thread |
| ServiceBridge.PlanIsFixedPoint | test/test01_server.cpp:100-106 | without a clamp the plan is the request, and planning again from a plan changes nothing |

## Left out

- ConcurrentQueue.AlwaysInvariant: the queue is a protocol on values, because its point is the interleaving; update in place, aliasing of the `T&` out-parameters and exceptions of copying a value are not captured.
- ShutdownProtocol.AlwaysInvariant: the queue is an atomic FIFO and the counters are unbounded; the node pool, its memory and the creation of threads are not modelled.
- WorkerPipeline.AlwaysConserved: the copying of a payload and its arithmetic are the parameter `f`. The field `factor` of a worker is never used by the source.
- UrlDecoding.UrlDecode: what `>> std::hex` makes of a pair that is not two hexadecimal digits is left open.
- Framing.Connection.ReadStream: blocking and the asynchronous reads are a stream that ends; the archive inside a payload is opaque. A payload of no bytes is read as such, where the source would take the address of an element of an empty vector.
- Csv.SplitCsvLine: only delimiters of one character; a longer one is only stepped over by one character in the source. The unused parameter `stripWS` is not modelled.
- ServiceBridge.PlanBound: sizes are unbounded, so the product of the request and the number of services does not wrap around.
- ServiceBridge.Server.InitServer: without services the source divides by zero, so the method requires one; ServicesIffSomeValid says when there is one. The threads are numbers, and the address of the host is not looked up.
- RequestHandler.HandleRequest: a file is a map entry, so links, directories and read errors do not occur.
- Sockets, acceptors, strands and `io_service`: only the order of completions and the bytes delivered are modelled.
- `src/Connection.cpp`, `src/IP.cpp`, `accept_all`, `serve_loop` and the message constructors of `ServiceQueue`: unfinished or pure networking.
- `test/test02_server.cpp`: repeats the modelled parts of `test/test01_server.cpp`.
- Console output, signals, the echo programs of `example/`, and the serialised types of `ex_serialization/` and `test/`: no behaviour beyond the library's.
