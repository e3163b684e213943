# barehttp: a verified model

A Dafny model of the parts of barehttp that are hard to get right, with proofs over all
inputs, all runs and all interleavings. `dafny verify dfyconfig.toml` checks everything.

## What is modelled

**Chunked decoder** (`phr_decode_chunked`). `ChunkedDecoder` is the decoder as it is
written: a class over a mutable array, with fall-through from state to state, block moves
down over removed headers and 64-bit counters. It is proved equal, call by call, to a
byte-at-a-time automaton (`ChunkedAutomaton`) with the counters and the overhead guard on
top (`ChunkedCalls`). About that automaton it is proved that cutting the stream into
buffers makes no difference, that exactly the messages of the chunked grammar
(`ChunkedCoding`) are accepted and with their payload, what the counters mean, and what the
return code says about the bytes (`ChunkedAnswers`).

**Request and response parser** (`phr_parse_request`, `phr_parse_response`, scalar build).
`HttpSyntax` is a reference grammar over the bytes present; `HttpParser` holds the loops,
each proved to compute its piece of the grammar, including the eight-at-a-time line scan
and the `is_complete` shortcut. `HttpGrammar` describes requests and responses by the bytes
they consist of, without scanning, and proves that a parse succeeds with a given result
exactly on these; `HttpVerdict` adds which bytes are awaited and which refused.
`HttpStability` proves that verdicts are final,
`HttpIncremental` that parsing a growing buffer refines parsing it once, `HttpSound` what
a successful parse hands out, `HttpText` that printed messages read back, and
`HttpCompletion` which partial requests can still be completed, and with how many bytes.

**Connection reader and response printer.** `Reader` describes the header and body loops
of a worker as a function of what `recv` delivers, and `Worker` runs them over an 8192-byte
array. `Reception` proves which streams of bytes are served, whatever pieces they arrive
in; `Assembly` does so for requests given by their parts; `Carryover` proves what one
connection leaves behind for the next; `Outcomes` proves when a connection ends in 400, in
500, or without an answer. `ResponseWriter` is the bounded printer, whose text
the parser reads back. `ContentLength` is the body length announced by a request.
`RequestPath` goes from request target to file path.

**Connection queue.** `Ring` is the circular buffer, as values and as a class. `Monitor`
is a step system: any number of accepting threads and workers, each with a program
counter, one access to shared state per step, places for threads that wait in `accept` or
for their peer until the outside moves them, atomic release-and-sleep for
`pthread_cond_wait`, a free choice of the thread a signal wakes, spurious wakeups, threads
that overtake woken ones, and an interrupt at any time. `MonitorSafety`, `MonitorWakeups`,
`MonitorRuns`, `MonitorDrain` and `MonitorStranded` prove what holds over every run of it,
`MonitorService` that the server goes on serving before the interrupt.

## Where the code does less than one might expect

Each of these comes with a condition that is both necessary and sufficient for the code to
do what one would expect; the failing side has a named input or run, or is all the rest.

- The overhead guard looks at buffer boundaries, so a stream can be refused because of
  where a buffer ended (`ChunkedCoding.CutCanTrip`). All cuts agree exactly when the
  stream is refused anyway or none of its prefixes is overloaded
  (`ChunkedCalls.EveryCutAgrees`); streams below 100 KiB are safe.
- With a previous length given, a bad request may be awaited instead of refused
  (`HttpIncremental.RejectionCanBePostponed`), and a partial one refused early
  (`HttpIncremental.RefusalCanComeEarly`).
  `HttpIncremental.PhrExact` and `HttpIncremental.ReceiveExact` say exactly when.
- The body handed to a handler is everything behind the header section. It is the announced
  body exactly if some receive ended right behind it (`Reception.BodyLengthExact`).
- A worker empties its buffer only after a request was processed; the `continue`s at
  src/server.c:624, 659 and 672 skip the reset, and every buffer contents can come about
  that way (`Carryover.EveryBufferIsReachable`). All connections of a run are read from an
  empty buffer exactly if each sends nothing, or a request with all its body that is then
  processed (`Carryover.CleanRunExactly`).
- What is left over is read in front of the next request. It is harmless exactly if it is
  nothing or one line break (`Carryover.HarmlessExactly`). With a complete header section
  left over, alone or with some of its body, nothing but that old request is ever served
  (`Carryover.LeftoverRequestAnswered`). It is served to the next peer, whose bytes are taken
  for the rest of its body, exactly if they let the shortcut notice an empty line and fill
  that body (`Carryover.LeftoverServedExactly`); they may also be merely awaited
  (`Carryover.LeftoverCanBeMissed`).
- One malformed request disables a worker for good (`Carryover.MalformedIsFinal`), and so
  does a full buffer, or a partial request without a future
  (`HttpCompletion.PartialWithoutFuture`, `Carryover.HopelessIsFinal`). The worker can serve
  the next, or some later, connection exactly if its buffer can still be extended to an
  accepted request that fits (`Carryover.ServableExactly`, `Carryover.EverServedExactly`); as
  long as the request line is not complete, that is exactly if the bytes agree with a request
  and its shortest completion fits (`Carryover.FutureExactly`).
- `queue_shutdown` wakes workers only, and an acceptor looks at the flag before it blocks. If
  the interrupt comes when it sleeps on a full queue, is on the way there, or is in `accept`
  or on the way there, it may never reach the call (`MonitorStranded.ShutdownCanHang`,
  `MonitorStranded.InterruptInBetween`, `MonitorStranded.InterruptBeforeAccept`).
  `MonitorStranded.ShutdownReachedExactly` says when it can. With one acceptor, as in the
  server, the shutdown can hang exactly if the acceptor is in `accept` or stranded at the
  queue (`MonitorStranded.HangsExactly`).
- A failed accept calls `queue_shutdown` with the flag clear, and a worker may sleep through
  the later interrupt (`MonitorStranded.FailedAcceptHangs`);
  `MonitorStranded.WorkersLeftExactly` says when all get out.
- A response whose status does not have three digits prints text the parser refuses
  (`ResponseWriter.ReadsBackExactly`).

Code and comments disagree in two places, and the model follows the code: the guard is
commented as "over 80%" but compares the delivered bytes with a quarter of the bytes read
(srclib/picohttpparser.c:691-695), and `http_parse_request` is documented to return 0 on
success but returns the length of the header section (includes/http.h:87,
srclib/http.c:95-101).

Integers are unbounded except where the width matters: the decoder's counters and its size
accumulator are reduced modulo 2^64, and `atoi` yields a 32-bit int. What the network, the
scheduler and the handlers do are parameters: `Event` scripts, `Label` runs, `processed`.
Header names and values of a response are C strings, so they hold no zero byte.

## Model

| member | source | states |
|---|---|---|
| `ChunkedDecoder.ChunkedDecoder.Decode` | srclib/picohttpparser.c:545-698 | One call of the in-place decoder equals `Call` of the reference automaton: same record, decoded bytes in front, undecoded input right behind them, bytes outside the buffer untouched. For a fresh record: not negative if and only if the input is a message decoded to these bytes with that many behind it, -1 if and only if it cannot become one or carries 100 KiB of overhead with less than a quarter delivered, otherwise -2 |
| `ChunkedDecoder.ChunkedDecoder.Run` | srclib/picohttpparser.c:552-683 | The fall-through loop keeps dst <= src <= bufsz, output in [0,dst), unread suffix intact; an incomplete exit has src = bufsz; every iteration consumes input |
| `ChunkedDecoder.ChunkedDecoder.ReadChunk` | srclib/picohttpparser.c:554-658 | Entered in any chunk state, falls through to the end of the chunk or to the trailers, in step with the automaton |
| `ChunkedDecoder.ChunkedDecoder.ReadSize` | srclib/picohttpparser.c:554-586 | Digits accumulate as the automaton says; the byte that ends them is not consumed |
| `ChunkedDecoder.ChunkedDecoder.SkipExt` | srclib/picohttpparser.c:588-601 | Skips an extension up to CR; a bare LF is an error |
| `ChunkedDecoder.ChunkedDecoder.ReadHeaderLf` | srclib/picohttpparser.c:603-619 | Ends a size line; a zero size ends the message or starts the trailers |
| `ChunkedDecoder.ChunkedDecoder.CopyData` | srclib/picohttpparser.c:621-637 | Moves chunk data down behind the output, as much as is there, without losing unread input |
| `ChunkedDecoder.ChunkedDecoder.ReadDataEnd` | srclib/picohttpparser.c:639-658 | The CR and the LF behind chunk data |
| `ChunkedDecoder.ChunkedDecoder.ReadTrailerHead` | srclib/picohttpparser.c:659-668 | CRs at the head of a trailer line; an LF there completes the message |
| `ChunkedDecoder.ChunkedDecoder.SkipTrailerLine` | srclib/picohttpparser.c:670-679 | The rest of a trailer line |
| `ChunkedDecoder.ChunkedDecoder.Account` | srclib/picohttpparser.c:685-697 | Counters, guard and return code are those of the reference `Judge`, whose meaning `Decode` states |
| `ChunkedDecoder.Compact` | srclib/picohttpparser.c:688-690 | The undecoded input ends up right behind the decoded bytes |
| `ChunkedAutomaton.FeedAppend` | srclib/picohttpparser.c:545-698 | Feeding a concatenation is feeding its parts in turn; a run that stopped ignores the rest |
| `ChunkedAutomaton.FeedData` | srclib/picohttpparser.c:621-637 | A block of chunk data is passed through unchanged, as if byte by byte |
| `ChunkedAutomaton.StepKeepsValid` | srclib/picohttpparser.c:554-586 | Every step keeps the decoder invariant, and the 64-bit accumulator is exact |
| `ChunkedCalls.CallAppend` | srclib/picohttpparser.c:545-698 | Two successive calls are one call on the joined input, counters included |
| `ChunkedCalls.CutInvariance` | srclib/picohttpparser.c:545-698 | Unless the guard trips at an inner boundary, any cut into buffers gives verdict, bytes, remainder and state of the uncut call; if it trips, an error |
| `ChunkedCalls.CutVerdictExact` | srclib/picohttpparser.c:691-696 | The verdicts agree if and only if no inner boundary trips the guard or the stream is refused anyway |
| `ChunkedCalls.EveryCutAgrees` | srclib/picohttpparser.c:691-696 | All cuts of a stream agree with the uncut call if and only if that is an error or no prefix is overloaded |
| `ChunkedCalls.OverloadedMeans` | srclib/picohttpparser.c:691-696 | Overloaded means: incomplete, 100 KiB of overhead, less than a quarter delivered |
| `ChunkedCalls.ShortStreamsCutFreely` | srclib/picohttpparser.c:691-696 | Below 100 KiB no cut makes a difference |
| `ChunkedCalls.OverheadAccounting` | srclib/picohttpparser.c:690-696 | Over any run of incomplete calls, read minus overhead is what was delivered, so overhead is below the limit or a quarter was delivered |
| `ChunkedCoding.RoundTrip` | srclib/picohttpparser.c:553-686 | Decoding an encoded message under any cut that does not trip the guard yields the payload and stops right behind it |
| `ChunkedCoding.AcceptsExactlyMessages` | srclib/picohttpparser.c:553-686 | The decoder finishes with output and remainder if and only if the input is a legal message with that payload, followed by that remainder |
| `ChunkedCoding.AcceptedIsMessage` | srclib/picohttpparser.c:553-686 | Reconstructs the message from any accepted input |
| `ChunkedCoding.SizeIsDigitsSeen` | srclib/picohttpparser.c:554-586 | In every reachable state that reads a size, the accumulator is the value of the digits seen on this line, at most 16 of them, without wrap-around |
| `ChunkedCoding.HexDigitsLegal` | srclib/picohttpparser.c:532-543 | Every length below 16^k has a legal size of at most k digits |
| `ChunkedAnswers.DecodeHexExact` | srclib/picohttpparser.c:532-543 | The value of a byte is v if and only if it is the v-th of "0123456789abcdef" or of "0123456789ABCDEF" |
| `ChunkedAnswers.OpenExactly` | srclib/picohttpparser.c:545-698 | Decoding goes on if and only if the bytes are the proper beginning of a message, and breaks off if and only if no bytes can make one of them |
| `ChunkedAnswers.CompletionFinishes` | srclib/picohttpparser.c:553-686 | Every reachable state can be completed to the end of a message |
| `ChunkedAnswers.CallAnswers` | srclib/picohttpparser.c:685-697 | A first call is complete, refused or incomplete if and only if the bytes are a message, cannot become one or carry too much overhead, or otherwise |
| `ChunkedCoding.CutCanTrip` | srclib/picohttpparser.c:691-696 | A whole family of streams is accepted so far in one piece and refused when cut inside a long chunk extension |
| `ChunkedCoding.CutCanTripWitness` | srclib/picohttpparser.c:691-696 | That family is not empty |
| `HttpParser.GetTokenToEol` | srclib/picohttpparser.c:134-195 | The eight-at-a-time scan with its jump back stops where a plain scan stops, with the same verdict and token |
| `HttpParser.GetToken` | srclib/picohttpparser.c:245-277 | Token characters up to a given byte, or the verdict of the grammar |
| `HttpParser.GetTarget` | srclib/picohttpparser.c:71-94 | The request target up to a space; control bytes are refused |
| `HttpParser.GetVersion` | srclib/picohttpparser.c:280-296 | The version, with its nine-byte lookahead |
| `HttpParser.GetHeaderLine` | srclib/picohttpparser.c:315-350 | Name, colon, blanks and trimmed value, or a continuation line |
| `HttpParser.GetHeaders` | srclib/picohttpparser.c:298-353 | Header lines up to the empty line, or an error at the limit |
| `HttpParser.GetRequest` | srclib/picohttpparser.c:355-399 | The request parse equals the grammar on every input |
| `HttpParser.GetReason` | srclib/picohttpparser.c:452-469 | The reason phrase without its leading spaces |
| `HttpParser.GetResponse` | srclib/picohttpparser.c:429-472 | The response parse equals the grammar on every input |
| `HttpParser.CheckComplete` | srclib/picohttpparser.c:197-223 | The shortcut scan equals the search for an empty line from three bytes before the old end |
| `HttpParser.PhrParse` | srclib/picohttpparser.c:401-498 | The exported parsers, with and without a previous length |
| `HttpSyntax.ScanStretch` | srclib/picohttpparser.c:147-179 | A scan passes no stopping byte and stops at one or at the end |
| `HttpSyntax.ScanUnique` | srclib/picohttpparser.c:147-179 | And it is the only position with that property |
| `HttpGrammar.TokenCharExact` | srclib/picohttpparser.c:96-103 | The token table holds exactly the visible characters that are no delimiters (section 3.2.6 of RFC 7230) |
| `HttpGrammar.ClassesExact` | srclib/picohttpparser.c:80-88 | The blanks, controls and printable characters the parser tests for |
| `HttpGrammar.TextsExact` | srclib/picohttpparser.c:245-353 | What printed names, targets and values may consist of |
| `HttpGrammar.FieldsExact` | srclib/picohttpparser.c:298-353 | The header section parses to a given list if and only if its bytes are laid out so: names, colons, blanks, values, line ends, continuation lines, at most the limit |
| `HttpGrammar.RequestExact` | srclib/picohttpparser.c:355-399 | The exact language: a request parses with a given length and slices if and only if its bytes are laid out so |
| `HttpVerdict.VerdictExact` | srclib/picohttpparser.c:355-399 | All three verdicts: accepted if and only if laid out as a request, awaited if and only if some bytes complete it or the wrong byte (an empty method, a version of fewer than nine bytes) has not been looked at, refused otherwise |
| `HttpVerdict.VersionRefused` | srclib/picohttpparser.c:280-296 | With nine bytes there a version is decided by its bytes |
| `HttpGrammar.ResponseExact` | srclib/picohttpparser.c:429-472 | The same for responses |
| `HttpStability.ParseStable` | srclib/picohttpparser.c:134-472 | Success, with count and slices, and rejection are preserved on every extension of the bytes |
| `HttpStability.HeadersStable` | srclib/picohttpparser.c:298-353 | The same for the header section, through its whole loop |
| `HttpStability.ParsePaired` | srclib/picohttpparser.c:298-472 | A parsed message ends behind an empty line, and every CR in it belongs to a CRLF |
| `HttpIncremental.ShortcutTransparent` | srclib/picohttpparser.c:415-427 | The shortcut never rejects or postpones a message that is there |
| `HttpIncremental.PrefixIsPartial` | srclib/picohttpparser.c:401-427 | Every prefix short of the message gives "partial" |
| `HttpIncremental.PrefixDecides` | srclib/picohttpparser.c:298-399 | A prefix that reaches the end of the message parses like the stream |
| `HttpIncremental.IncrementalStep` | srclib/picohttpparser.c:401-427 | One call on a growing buffer: partial before the end, the full result from there on |
| `HttpIncremental.IncrementalExact` | srclib/picohttpparser.c:401-498 | For every fragmentation, reception succeeds if and only if the stream parses, with the same result |
| `HttpIncremental.RejectionIsRight` | srclib/picohttpparser.c:401-427 | A reception that was refused cannot be continued to a message |
| `HttpIncremental.RejectionCanBePostponed` | srclib/picohttpparser.c:415-419 | A bad request that is refused in one piece and awaited in two |
| `HttpIncremental.RefusalCanComeEarly` | srclib/picohttpparser.c:415-419 | An input the full parse still awaits and the shortcut refuses |
| `HttpIncremental.PhrExact` | srclib/picohttpparser.c:197-223 | Every call, for all bytes and previous lengths: the full parse, or refusal if a lone CR is the first thing revealed from three bytes before the old end on, or "partial" if nothing is |
| `HttpIncremental.ReceiveExact` | srclib/picohttpparser.c:401-498 | Every reception, for all bytes and cuts: success if and only if the stream parses, otherwise refusal if and only if some call refuses |
| `HttpIncremental.EarlierLengthAccepts` | srclib/picohttpparser.c:197-223 | What a later call accepts would be accepted with the earlier length as well |
| `HttpCompletion.CompletableExactly` | srclib/picohttpparser.c:280-399 | Some bytes make a request of a buffer if and only if it has a non-empty method, version bytes that agree with "HTTP/1." and a digit, and no bad byte; `Missing` many are enough, and no fewer |
| `HttpCompletion.NothingShorter` | srclib/picohttpparser.c:280-399 | Every request that extends a buffer is at least that much longer |
| `HttpCompletion.RequestCompletes` | srclib/picohttpparser.c:280-399 | A completion of exactly that length |
| `HttpCompletion.PartialWithoutFuture` | srclib/picohttpparser.c:280-288 | A partial request that no bytes complete |
| `HttpSound.ParseSound` | srclib/picohttpparser.c:245-472 | Ordered, disjoint slices inside the consumed bytes; token names before a colon, values trimmed and free of control bytes, at most the allowed number of headers |
| `HttpSound.HeadersSound` | srclib/picohttpparser.c:298-353 | The same for the header list, by induction over its lines |
| `HttpText.ResponseRoundTrip` | srclib/http.c:355-380 | A printed response parses to version 0, status, reason and headers, consuming exactly its length, whatever follows |
| `HttpText.ResponseRefused` | srclib/picohttpparser.c:445-469 | A printed status without exactly three digits is refused |
| `HttpText.RequestRoundTrip` | srclib/picohttpparser.c:355-399 | A printed request parses to its parts, whatever follows, also behind the one line break that is skipped |
| `HttpText.RequestTextIs` | srclib/picohttpparser.c:355-399 | The printed request, byte for byte |
| `HttpText.TooManyRefused` | srclib/picohttpparser.c:311-314 | A printed request with more fields than the limit is refused |
| `ResponseWriter.HttpResponse.AddHeader` | srclib/http.c:382-392 | Appends a header, or refuses when 50 are there |
| `ResponseWriter.HttpResponse.Serialize` | srclib/http.c:355-380 | Returns the length exactly if the text and its zero byte fit; the buffer holds the text or as much as fits, and nothing behind it changes |
| `ResponseWriter.Snprintf` | srclib/http.c:359-377 | A bounded print: full text and zero byte, or as much as fits; the full length in any case |
| `ResponseWriter.StatusTextPlain` | srclib/http.c:678-699 | Every reason phrase can be read back |
| `ResponseWriter.StatusTextIs` | srclib/http.c:678-699 | The table of reason phrases |
| `ResponseWriter.PrintedText` | srclib/http.c:359-374 | The printed response, byte for byte, as the format strings say |
| `ResponseWriter.SerializedReadsBack` | srclib/http.c:355-392 | What was serialized is received, in any fragments, as the same version, status, reason and headers |
| `ResponseWriter.ReadsBackExactly` | srclib/http.c:355-380 | The text parses if and only if the status has three digits |
| `ContentLength.GetContentLength` | srclib/http.c:198-219 | The first exact-case Content-Length decides, cut to 15 characters; zero without one |
| `ContentLength.BodyLengthExtends` | srclib/http.c:198-219 | Bytes received later do not change the announced length |
| `ContentLength.DecimalLength` | srclib/http.c:206-215 | Every decimal length that fits an int is read back exactly |
| `ContentLength.AtoiReads` | srclib/http.c:213 | White space, sign, digits and other text are read as the signed number |
| `ContentLength.LongLengthIsCut` | srclib/http.c:206-213 | Fifteen digits of a value are read, and the sixteenth is not |
| `Reader.HeaderKeepsBounds` | src/server.c:585-618 | The header loop only appends inside the buffer, and what it reports is the parse of the buffer |
| `Reader.BodyKeepsBounds` | src/server.c:636-654 | The body loop only appends inside the buffer and ends with the missing bytes there |
| `Worker.Socket.Receive` | src/server.c:586 | A receive writes only into the room it was given |
| `Worker.Worker.Fill` | src/server.c:586-608 | A receive targets the free tail and appends what came |
| `Worker.Worker.ReadHeaderSection` | src/server.c:585-618 | The header loop over the array computes the reference reader |
| `Worker.Worker.ReadBodySection` | src/server.c:636-654 | So does the body loop; it runs only with room left and ends on the missing-byte count |
| `Worker.Worker.Serve` | src/server.c:583-680 | One connection: outcome and carried-over buffer are those of the reference; the reset happens only at the end |
| `Reception.RecvSplits` | src/server.c:586 | One receive moves bytes from the stream to the buffer and loses none, unless there is no room or no stream |
| `Reception.HeaderExact` | src/server.c:585-618 | From every buffer and however the bytes are cut, the header loop succeeds if and only if they parse and, where the buffer already held a header section, it is noticed; and with their parse |
| `Reception.HeaderAccepts` | src/server.c:585-618 | From any buffer: a header section is found only after a receive, is the parse of the buffer, and passes the shortcut from the first length on |
| `Reception.BodyExact` | src/server.c:636-654 | The body loop succeeds if and only if enough bytes arrive |
| `Reception.ServedExactly` | src/server.c:585-663 | From every buffer: a request is served if and only if the bytes that arrive before a close or error, cut at 8192, show a header section and complete its announced body; and then with its parse and everything received behind it |
| `Reception.ServedSound` | src/server.c:585-663 | From any buffer, what is served is the request the buffer then starts with |
| `Reception.BodyLengthExact` | src/server.c:662-663 | The body handed over has the announced length if and only if some receive ended right behind it |
| `Outcomes.HeaderIsReception` | src/server.c:585-618 | The header loop is a reception cut where the receives ended, and its outcome follows from that |
| `Outcomes.OutcomeExactly` | src/server.c:585-663 | By bytes, pieces and events: when a connection is served, refused with 400, refused with 500, or given up |
| `Assembly.EndToEnd` | src/server.c:585-663 | From an empty buffer and for every cut, a complete header section and a body are served if and only if the body is long enough; if it is as announced, header size, request and body come out right, with the header bytes in place |
| `Assembly.PrintedEndToEnd` | src/server.c:585-663 | Every well-formed request given by method, target, version, fields and body comes out as sent, for every cut, also behind one line break |
| `Assembly.AnnouncedLength` | srclib/http.c:198-219 | The announced length of a printed request is that of its first Content-Length, or zero |
| `Assembly.TooLargeIsRefused` | src/server.c:629-634 | A request that announces more body than fits behind its header section is refused with 400, for every cut |
| `Assembly.AnnouncingRequest` | srclib/http.c:198-219 | Every body that fits can be announced by a well-formed request |
| `Carryover.RunKeepsBounds` | src/server.c:567-683 | Over every sequence of connections and receive results, last_len <= buff_len <= 8192 |
| `Carryover.EveryBufferIsReachable` | src/server.c:585-673 | Every buffer contents is left behind by some connection |
| `Carryover.CleanExactly` | src/server.c:621-680 | A connection leaves the buffer empty if and only if it sends nothing, or a request with all its announced body that is then processed |
| `Carryover.CleanRunExactly` | src/server.c:567-683 | All connections of a run are read from an empty buffer if and only if each of them is of that kind |
| `Carryover.LeftoverJoinsNextRequest` | src/server.c:585-680 | For every leftover: the method of the next request comes from the next peer if and only if at most one line break was left; otherwise its first byte is a leftover one |
| `Carryover.HarmlessExactly` | src/server.c:585-680 | The next request comes out as sent, whatever it is, if and only if nothing or one line break was left over |
| `Carryover.TokensPrepend` | src/server.c:585-680 | Token characters left over come out in front of the next method |
| `Carryover.LeftoverRequestAnswered` | src/server.c:656-673 | With a complete header section left over, nothing but that request is ever served, with the next bytes as its body |
| `Carryover.LeftoverServedExactly` | src/server.c:585-673 | For every buffer with a complete header section, alone or with body bytes: it is served to the next peer if and only if an empty line is noticed from three bytes before the old end on, with no lone CR before it, and the announced body is filled |
| `Carryover.LeftoverCanBeMissed` | src/server.c:585-673 | With body bytes left behind the header section, a peer that sends no line end is not served |
| `Carryover.WholeLeftoverExactly` | src/server.c:656-673 | With nothing behind the header section, any byte that arrives is enough for it to be noticed, and it is served if and only if the next bytes fill its body |
| `Carryover.ServableExactly` | src/server.c:585-663 | The next connection can be served if and only if some extension of the buffer within 8192 bytes is accepted at its length, with a body that fits |
| `Carryover.EverServedExactly` | src/server.c:572-683 | Some later connection can be served if and only if some extension of the buffer can be extended so |
| `Carryover.NeverServedAgain` | src/server.c:610-625 | From a buffer the parser refuses, no connection is ever served again |
| `Carryover.HopelessIsFinal` | src/server.c:610-625 | From a partial request that no bytes complete, or none that fit, no connection is ever served again |
| `Carryover.FutureExactly` | src/server.c:572-683 | With the request line not complete, some later connection can be served if and only if the bytes agree with a request and its shortest completion fits |
| `Carryover.MalformedIsFinal` | src/server.c:610-625 | One malformed request is enough for that |
| `Carryover.BrokenOffLeavesBytes` | src/server.c:586-625 | A connection that breaks off inside its method leaves its bytes |
| `Carryover.OverlongRequestFills` | src/server.c:612-617 | One overlong request leaves a full buffer |
| `Carryover.FullBufferIsFinal` | src/server.c:586-625 | With a full buffer every later connection is dropped, for good |
| `Ring.PutAppends` | srclib/queue.c:65-67 | Insertion modulo the capacity appends to the sequence of entries |
| `Ring.TakeRemoves` | srclib/queue.c:90-92 | Removal modulo the capacity takes the oldest entry |
| `Ring.Queue.constructor` | srclib/queue.c:20-48 | A new queue is consistent and empty |
| `Ring.Queue.Insert` | srclib/queue.c:65-67 | The record after insertion, and its entries |
| `Ring.Queue.Remove` | srclib/queue.c:90-92 | The record after removal, and its entries |
| `MonitorSafety.MutexStep` | srclib/queue.c:50-99 | Every step keeps: the holder of the mutex is the one thread in a critical section |
| `MonitorSafety.PlacesStep` | srclib/queue.c:50-99 | Every step keeps: what a thread tested about the queue still holds where it relies on it |
| `MonitorSafety.FifoStep` | srclib/queue.c:50-99 | Every step keeps: taken connections followed by queued ones are the enqueued ones |
| `MonitorSafety.HandedStep` | srclib/queue.c:73-99 | Every step keeps: what was taken is returned to the worker that took it, once |
| `MonitorSafety.DownStep` | srclib/queue.c:122-126 | Every step keeps: after a broadcast with the flag set nobody waits for entries or touches the queue |
| `MonitorWakeups.WakeupStep` | srclib/queue.c:50-99 | Every step keeps: sleepers are covered by threads on their way |
| `MonitorRuns.RunInvariant` | srclib/queue.c:50-126 | Every run of any number of threads keeps all of these |
| `MonitorRuns.NoLostWakeup` | srclib/queue.c:50-99 | In every reachable state before the interrupt, with a worker asleep, queued connections do not outnumber woken workers and pending signals; the same for free slots and acceptors |
| `MonitorRuns.SleeperIsRelieved` | srclib/queue.c:73-99 | With the mutex free, a sleeping worker and a queued connection mean that another worker was woken and is still to run |
| `MonitorRuns.FirstInFirstOut` | srclib/queue.c:50-99 | The k-th connection taken is the k-th enqueued, the queue holds the rest in order, and each is handed to the one worker that took it |
| `MonitorRuns.IndexingIsSafe` | srclib/queue.c:53-92 | No thread inserts into a full queue or removes from an empty one |
| `MonitorService.NobodyLeaves` | src/server.c:572-683 | Before the interrupt no worker has left its loop |
| `MonitorService.IdleExactly` | srclib/queue.c:50-99 | Before the interrupt, with no thread able to go on: workers are busy, or asleep at an empty queue; acceptors are in accept, or asleep at a full one |
| `MonitorService.ServesNext` | src/server.c:572-683 | A busy worker that gets done takes the next queued connection by its own steps and is busy with it |
| `MonitorService.EnqueuesNext` | src/server.c:505-520 | A connection accepted while there is room is enqueued by the acceptor alone, which goes back to accept |
| `MonitorService.ServiceGoesOn` | src/server.c:572-683 | From every such reachable state with a connection queued, the oldest one is handed to any worker that gets done |
| `MonitorService.EnvironmentIsFree` | srclib/queue.c:50-126 | The interrupt, spurious wakeups, the choice of the sleeper a signal wakes and of the thread that gets the mutex are not restricted |
| `MonitorRuns.ShutdownIsFinal` | srclib/queue.c:50-126 | Once shutdown has broadcast with the flag set, the queue never changes again, no worker sleeps on it, and every later pop returns nothing |
| `MonitorDrain.DrainsStepwise` | srclib/queue.c:50-126 | After the interrupt, every step of any interleaving, accepts included, uses up one of a bounded supply |
| `MonitorDrain.StuckIsAtRest` | srclib/queue.c:50-126 | In every reachable state where no thread can go on by itself, the mutex is free and all are at their ends, asleep, in accept or busy with a connection |
| `MonitorDrain.ShutdownDrains` | src/server.c:522-534 | Once shutdown has broadcast with the flag set, at most ten steps per thread are taken in all, and when none can go on every worker has left its loop or is still busy with a connection |
| `MonitorStranded.StrandedForGood` | srclib/queue.c:53-57 | An acceptor asleep on a full queue, or about to be, stays there after the interrupt, spurious wakeups aside, unless a worker is past its last look at the flag |
| `MonitorStranded.ShutdownReachedExactly` | src/server.c:505-525 | In every state after the interrupt, an acceptor can reach queue_shutdown without a spurious wakeup if and only if it is not about to sleep, and not asleep without a worker about to signal; and without the outside if and only if it is not in accept either |
| `MonitorStranded.ShutdownCompletes` | src/server.c:505-534 | With one acceptor that is neither stranded nor in accept, every run after the interrupt is bounded, and every run that cannot go on has the acceptor done and all workers out or busy |
| `MonitorStranded.HangsExactly` | src/server.c:505-534 | With one acceptor that has not broadcast yet and the flag set: some run in which the outside does nothing ends without a complete shutdown if and only if the acceptor is in accept or stranded |
| `MonitorStranded.StaysInAccept` | src/server.c:505-506 | An acceptor in accept stays there while the outside does nothing |
| `MonitorStranded.InterruptBeforeAccept` | src/server.c:505-506 | A run from the start with the interrupt between the look at the flag and accept |
| `MonitorStranded.ShutdownCanHang` | src/server.c:505-525 | A run from the start that strands a sleeping acceptor |
| `MonitorStranded.InterruptInBetween` | srclib/queue.c:53-57 | A run from the start with the interrupt between the look at the flag and the wait |
| `MonitorStranded.WorkersLeftExactly` | src/server.c:507-534 | With all acceptors through with queue_shutdown and the flag set, some run leaves a worker behind if and only if one sleeps or is about to; never if the broadcast came with the flag set |
| `MonitorStranded.FailedAcceptHangs` | src/server.c:507-534 | A run from the start in which a failed accept shuts down with the flag clear and a worker misses it for good |
| `RequestPath.CheckPathTraversal` | srclib/http.c:799-812 | Refuses exactly the targets with a backslash before the last byte, "..", or "//" |
| `RequestPath.SplitQuery` | srclib/http.c:565-571 | Splits at the first question mark, although the loop shortens its own bound |
| `RequestPath.BuildPath` | srclib/http.c:701-719 | -2 for targets of 132 bytes or more; otherwise the target, or "/index.html" for "/", zero-terminated |
| `RequestPath.AcceptedExactly` | srclib/http.c:799-812 | A target passes the check if and only if it holds no "..", no "//" and no backslash before its last byte |
| `RequestPath.ResolveTarget` | srclib/http.c:558-580 | From the target: 403 for exactly the refused ones, 400 if the part before the first question mark has 132 bytes or more, and otherwise that part is the path opened, "/index.html" for "/"; it stays below the root |
| `RequestPath.PathStaysBelowRoot` | srclib/http.c:565-719 | A target starting with a slash that the traversal check (lines 799-812) accepts gives a path without ".." components, with no empty component but the last, that never leads above the root |

## Left out

- `epoll_server` and its client list (src/server.c:197-407): its body phase is unfinished, so there is no settled behaviour to state.
- SSE4.2 branches of the parser: the Makefile does not enable them.
- `phr_parse_headers` and `phr_decode_chunked_is_in_data`: easy members, covered by the pieces they are made of.
- HttpParser.PhrParse: the values left in the out-parameters of a failed parse are not modelled, only the verdict.
- ContentLength.GetContentLength: out-of-range text follows the usual C library conversion, where the C standard leaves it open.
- ResponseWriter.HttpResponse.Serialize: `snprintf` failing, or lengths beyond an int, are not modelled.
- Ring.Queue.constructor: allocation does not fail.
- Ring.Queue.Insert and Ring.Queue.Remove: the waiting around them is in the step system `Monitor`, not in the class, because other threads act during a wait.
- MonitorStranded.ShutdownCompletes and MonitorDrain.ShutdownDrains: when a busy worker gets done with its connection is left to the outside, so joining it is not promised; the table of active descriptors (srclib/queue.c:101-120), which main uses to cut such connections off, and reuse of descriptor numbers are not modelled.
- The int and size_t pointer casts in `http_parse_request`: a matter of C layout.
- Sockets, `openat2`, `sendfile`, processes and pipes, dates, logging and configuration: I/O and foreign calls.
- `http_send_error`, `get_mime_type`, `request_method_type`, and the handlers behind `http_process_request`: tables and I/O.
- The web pages, scripts and drivers under www/, store/, doc/ and tests/.
