# A model of the HTTP/1.1 server

This project models a single-threaded HTTP/1.1 server written in C and proves what its
resumable state machines keep, over every input, every way the network cuts a byte stream,
every handler and every producer. The modules compose: the connection proofs use the decoder
proofs, which use the number parser, and the registry proofs use the header lookup.

* `Bytes`, `Numbers`, `Config`: byte classes and cursor searches, `uint_parse` and the printers
  it inverts, the default limits.
* `ChunkSpec`, `ChunkGrammar`, `ChunkVerdicts`, `ChunkFrame`, `ChunkDecoders`: the chunked coding.
  The six-phase decoder is a class over arrays; a recursive decoder over byte sequences specifies
  it; a grammar of section 7.1 of RFC 9112 says what it accepts, and what it refuses or waits for;
  the encoder is its inverse.
* `RequestLines`, `Headers`, `Requests`, `TransferEncoding`, `Admissions`: request parsing. Each
  loop is a method proved against a function, and the functions are proved against printers or
  against list grammars.
* `AdmissionRules`, `ConnAdmits`: who gets in, as rules on which headers are there and what they
  say; that exactly those are admitted, and that in every run no others reach a handler.
* `Buffers`, `Responses`: byte buffers, `response_serialize`, and what a client reads back.
* `Network`, `ConnSpec`, `Connections`: one connection. `ConnSpec` is the state machine as
  functions over connection, world and log; `Connections.Connection` is the same machine as a class
  that updates its fields and buffers in place, each method equated with its function. The world
  is a script for recv, send, handlers, producers and the clock, so that a theorem about
  all scripts is a theorem about every schedule.
* `Framing`, `ConnFraming`, `ConnRuns`, `ConnWire`, `ConnPromises`: invariants and what they say
  about whole runs of a connection in any slot: conservation of received bytes, independence of
  how the stream is cut, exact streamed responses, producer lifecycle, bounded numbers of
  responses, and how buffered responses repeat themselves.
* `ConnSends`, `ConnEnds`, `ConnCloses`, `ConnTells`: what a failed send does, how wake-ups end, when
  and why connections close, and what clients read about it.
* `ConnAnswers`, `ConnCauses`, `ConnProgress`, `ConnService`: every final response is byte for byte
  the one due to the request it answers; every refusal is explained by the bytes received; on a
  cooperative network nothing gets stuck; a peer that behaves is answered to its last request.
* `Clients`, `ConnClients`: a client that finds the end of each response as section 6.3 of RFC 9112
  says, and which responses let it.
* `Samples`, `ConnSlots`, `ConnRefusals`: small requests as witnesses; slots that serve one
  connection after another; requests that are refused and stay.
* `Arenas`, `Dictionaries`, `Registries`: the bump allocator, the chained hash table and the
  revalidating content registry.

## Where the code and its intent part

These are properties one would expect and that fail of the code; each has a lemma that says
exactly when it holds and a lemma that gives an input for which it does not.

* The chunked decoder waits for more of a size line until its CRLF, whatever the line says, and for
  two bytes behind the last chunk, whatever the first is. What it waits for can still become a body
  if and only if the line so far begins a size and that byte, if there, is a CR
  (`ChunkVerdicts.HopeExactly`); behind "x" it waits in vain (`ChunkVerdicts.WaitsInVain`).
* `uint_parse` honours its bound if and only if the bound is at least one digit
  (`Numbers.BoundHonouredExactly`): below it the guard's subtraction wraps, and the next digit is
  accepted (`Numbers.DigitAboveBound`).
* A header value of the full 255 bytes is stored but cannot be written and read again, since the
  separator space counts toward the limit (`Requests.ReparseExactly`; `Requests.TightRequestParses`
  gives such a request).
* A Content-Length handler sees every buffered byte after the head, so it sees exactly its body
  if and only if nothing of the next request was buffered (`ConnRuns.HandlerSeesBodyExactly`;
  `ConnSlots.ClosingSeesMore` gives such a request).
* Of several Content-Length lines the first frames the request, whatever the others say. The
  framing of an admitted request is independent of their order if and only if they all declare
  the same length (`Admissions.FramingDeterminedExactly`; `Samples.TwoLengthsAdmitted` admits any
  two lengths).
* Several Transfer-Encoding lines are judged one by one, not as the one list they are together.
  The verdict is that of the list if and only if `Admissions.JudgedAlike`, a condition on which
  lines are empty, malformed or just chunked (`Admissions.CodingAgreesExactly`; "chunked" in two
  lines is accepted, `Samples.ChunkedTwiceAccepted`).
* A buffered response starts again from its first byte after a partial write
  (`ConnPromises.PartialWriteRepeats`). Followed over the script of sends until it is complete, it is
  on the wire exactly once if and only if no send took some of it without the rest
  (`ConnPromises.BufferedExactly`).
* A request that is refused, for its head or for its chunked body, is answered with "Connection:
  close", but it is not consumed, and the connection closes if and only if the head does not parse
  or does not ask to stay, with no flag left set, or the limit is reached
  (`ConnRefusals.RefusedStays`). A refused request that asks to stay (`ConnRefusals.RefusedAndKept`
  and `ConnRefusals.BodyRefusedAndKept` give one of each kind) is answered over and over until the
  limit (`ConnRefusals.RefusedRepeats`), and nothing behind it is ever built
  (`ConnRefusals.NothingBehindRefused`).
* `connection_init` leaves some fields of a slot as they were. Every request in every world is
  framed right if and only if no length was left behind (`ConnSlots.SlotFramesExactly`), and every
  length up to the limit can be (`ConnSlots.LengthLeftBehind`): a request without a body then waits
  for one, or swallows what follows as one (`ConnSlots.StaleLengthStalls`,
  `ConnSlots.StaleLengthSwallows`). A left offset has no effect (`ConnSlots.StaleOffsetIgnored`).
* A keep-alive flag can be left in a slot too (`ConnSlots.FlagLeftBehind`: a peer that is gone when
  it is answered), and it counts for the next connection's first response: a request that asks for
  the connection to be closed is answered "keep-alive" and not closed if and only if the flag was
  left (`ConnSlots.LeftFlagDecides`, `ConnSlots.KeepAliveExactly`).
* A client finds the end of a response that the server frames if and only if it has a body and its
  status allows one, or neither (`Clients.PlainTellsExactly`, `Clients.StreamTellsExactly`). Behind a
  200 without a body, also on a connection that is kept alive, it finds nothing
  (`Clients.EmptyOkUntold`).
* The mask rounding of `arena_alloc` is right if and only if the addition does not wrap
  (`Arenas.AlignUpSafeExactly`). When it wraps, an allocation that succeeds is put at the start
  of the region, onto the live blocks unless they are all empty (`Arenas.AllocSafeExactly`; `Arenas.WrapOverlaps` gives such a one).
* The registry misses a change of a file exactly when it keeps time and size but not content
  (`Registries.LookupFreshExactly`, `Registries.UnseenChange`), tells a client "not modified" when the
  URL now names another file of the same time and size (`Registries.ReregisteredExactly`).
* A client that sends back the time of the file it holds is told "not modified" if and only if the
  file has not become younger, so also when an older one has taken its place
  (`Registries.DateToldExactly`).
* A registered path of more than 255 bytes is cut, so a lookup right after the registration carries
  the content of the registered file if and only if the path fits or the file of the cut path
  looks or is the same (`Registries.PathServedExactly`). When there is no such file, the one just
  registered is gone (`Registries.LongPathGone`).

One more difference is between the code and its documentation: `dict_insert` is documented
to keep the caller's key and to return 0; the code copies the key and returns 1. The model follows
the code.

## Model

| member | source | states |
|---|---|---|
| Bytes.CheckToken | src/parser.c:77-85 | true exactly for non-empty strings of tchar bytes |
| Bytes.AsciiIeq | src/parser.c:103-110 | true exactly for strings of equal length that agree byte by byte after ASCII lower-casing |
| Bytes.CrlfFind | src/parser.c:12-19 | finds the first CRLF that lies wholly inside the range, or the end |
| Bytes.ByteFind | src/parser.c:35-42 | finds the first occurrence of a byte in the range, or the end |
| Bytes.OwsSkip | src/parser.c:45-48 | moves to the first byte of the range that is no SP or HTAB |
| Bytes.OwsTrimTrailing | src/parser.c:56-59 | moves back to just behind the last byte of the range that is no SP or HTAB |
| Numbers.DigitValueExact | src/ParseResult.c:17-33 | a byte has a digit value if and only if, up to case, it is the character of that digit and the digit is below the base |
| Numbers.ParseUint | src/ParseResult.c:36-49 | the loop computes the specified fold and, once the bound is a digit or more, no intermediate value exceeds it |
| Numbers.UintParseExact | src/ParseResult.c:36-49 | with a bound of at least base-1: accepts exactly the non-empty digit strings denoting a number within the bound, returns that number, and says "too large" exactly when a digit prefix already exceeds the bound |
| Numbers.BoundHonouredExactly | src/ParseResult.c:43 | no accepted number exceeds the bound if and only if the bound is at least base-1 |
| Numbers.DigitAboveBound | src/ParseResult.c:43 | below that bound, the one digit above it is accepted |
| Numbers.ParseInvertsPrint | src/ParseResult.c:36-49 | parsing a printed number gives the number back when it is within the bound and "too large" otherwise |
| Numbers.DigitsInjective | src/HttpResponse.c:229-230 | different numbers print differently in a base |
| Numbers.DigitsLower | src/HttpResponse.c:229-230 | printed digits are 0 to 9 and lower-case a to f, with no leading zero |
| ChunkSpec.Advance | src/HttpBody.c:122-232 | one step stays inside input and output, moves forward whenever it reports success before the end, and changes nothing when it rejects (what it accepts, refuses and waits for is ChunkVerdicts.VerdictExactly) |
| ChunkSpec.VerdictStable | src/HttpBody.c:62-120 | once some bytes have a verdict, every extension of them has the same verdict, output and consumed count |
| ChunkSpec.DrainResumes | src/HttpBody.c:95-118 | a decoder that waits can be resumed on a longer buffer with the outcome of decoding that buffer in one go |
| ChunkSpec.SplitInvariance | src/HttpBody.c:62-120 | a body fed in any pieces has the verdict of the whole and, unless too large, the same decoded bytes, consumed count and decoder state |
| ChunkGrammar.DecodeBody | src/HttpBody.c:122-232 | any input that begins with a body of the grammar decodes to its payload, consuming exactly the body, or is too large exactly when the payload does not fit |
| ChunkGrammar.DecodeExactly | src/HttpBody.c:122-232 | the decoder completes if and only if the input begins with a grammatical body whose payload fits |
| ChunkGrammar.BodyUnique | src/HttpBody.c:122-232 | the grammar is unambiguous and prefix-free: an input begins with at most one body |
| ChunkVerdicts.VerdictExactly | src/HttpBody.c:122-232 | each of the four verdicts is given if and only if the input is whole chunks whose data fit and then a rest of that kind: broken (no size, data without CRLF, anything but CRLF behind the last chunk), overfull (a size above the limit, or more data than fit), waiting or closing |
| ChunkVerdicts.RejectedForGood | src/HttpBody.c:62-120 | no extension of a refused body is a body of the grammar |
| ChunkVerdicts.HopeExactly | src/HttpBody.c:131-142 | a body the decoder waits for can still become one if and only if its line so far is nothing or begins a size and no byte but CR stands behind the last chunk, and can be completed if and only if what it announces fits as well |
| ChunkVerdicts.WaitsInVain | src/HttpBody.c:131-142 | behind "x" the decoder waits, though nothing that begins so is a body |
| ChunkVerdicts.TrailerFieldRefused | src/HttpBody.c:208-216 | the last chunk and two bytes that are not CRLF are refused, whatever follows and whatever room there is |
| ChunkFrame.WriteFrame | src/HttpResponse.c:229-237 | writes hex size, CRLF, payload, CRLF when that fits with the size line's NUL, and fails otherwise |
| ChunkFrame.WriteLastFrame | src/HttpResponse.c:239-242 | writes the last chunk and the empty trailer when they fit, and fails otherwise |
| ChunkFrame.FramesDecode | src/HttpResponse.c:229-242 | any non-empty payloads within limits, framed, ended and followed by arbitrary bytes, decode to exactly their concatenation, consuming exactly the frames |
| ChunkDecoders.ChunkDecoder.Reset | src/Connection.c:74-78 | the decoder stands at the start of a body |
| ChunkDecoders.ChunkDecoder.AdvanceChunk | src/HttpBody.c:122-232 | updating phase and remaining in place and copying into the output array is one step of the specified decoder, and the rest of the array is unchanged |
| RequestLines.MethodParse | src/HttpRequestLine.c:29-44 | computes the specified method and the position behind its space |
| RequestLines.UriParse | src/HttpRequestLine.c:47-116 | computes the specified path, query and position, or the specified error |
| RequestLines.VersionParse | src/HttpRequestLine.c:118-144 | computes the specified version or error |
| RequestLines.LineParse | src/HttpRequestLine.c:146-155 | computes the specified record or error of a whole line |
| RequestLines.TargetExact | src/HttpRequestLine.c:47-116 | the target scanner accepts exactly a valid path followed by a valid query, split at the first question mark |
| RequestLines.RequestLineExact | src/HttpRequestLine.c:146-159 | a line is accepted with a record if and only if the record is well-formed and the line is what printing the record gives |
| RequestLines.MethodExactly | src/HttpRequestLine.c:29-44 | a method is read if and only if the line begins with GET, POST, PUT or DELETE and a space, and every other line is refused |
| RequestLines.TooLongExactly | src/HttpRequestLine.c:47-116 | of a path and query of the right bytes the target is too long exactly when one of them exceeds its buffer |
| RequestLines.UnsupportedExactly | src/HttpRequestLine.c:118-155 | a line is refused for its version if and only if it is "HTTP/", a digit, a dot and a digit, none of the three, and nothing else is wrong with the line |
| Headers.KeyParse | src/HttpHeaders.c:12-35 | computes the specified status of a header key |
| Headers.ValueParse | src/HttpHeaders.c:37-61 | computes the specified trimmed value or error |
| Headers.HeaderLineParse | src/HttpHeaders.c:63-85 | computes the specified header or error of one line |
| Headers.HeaderFind | src/HttpHeaders.c:100-107 | returns the first header of that name up to case, and none exactly when there is none |
| Headers.ParsedHeaderValid | src/HttpHeaders.c:12-85 | every stored header has a token key of at most 63 bytes and an OWS-trimmed field-content value of at most 255 |
| Headers.ShownHeaderParses | src/HttpResponse.c:19-24 | a printed header parses back to itself if its value is at most 254 bytes long, and is too long otherwise |
| Headers.TrimmedExactly | src/HttpHeaders.c:37-61 | what is stored of a value is what remains of it when the spaces and tabs at both ends, and no others, are gone |
| Headers.HeaderLimits | src/HttpHeaders.c:12-85 | a line with a token before its colon is refused for a key of 64 bytes, a value of more than 255, a byte that is no field content or one header too many, in that order and each with its status, and is stored otherwise |
| Requests.TerminatorFind | src/Connection.c:27-34 | finds the first CR LF CR LF of the buffer, or none |
| Requests.RequestParse | src/HttpRequest.c:11-40 | computes the specified request head and never indexes past the buffer when it holds a blank line |
| Requests.ScannersAgree | src/HttpRequest.c:11-40 | with a blank line in the buffer, parsing depends only on the bytes through the first one, and on success stops where the independent search put the body start |
| Requests.HeadEndExtend | src/Connection.c:27-34 | a blank line once buffered stays the first one as bytes arrive |
| Requests.ShownRequestParses | src/HttpRequest.c:22-35 | a buffer beginning with a printed head parses to the same line and headers in order and stops at its end, unless some value is 255 bytes long, when it is refused |
| Requests.ReparseExactly | src/HttpRequest.c:11-40 | printing an accepted request and parsing it again gives the same request if and only if every stored value is shorter than 255 bytes |
| Requests.TightRequestParses | src/HttpHeaders.c:37-61 | without the separator space a header with any stored value is accepted, and printing and parsing it again fails exactly when the value has 255 bytes |
| Requests.ParsedRequestValid | src/HttpRequest.c:11-40 | what is stored is always a valid line and at most 32 valid headers |
| Requests.FirstLineDecides | src/HttpRequest.c:11-20 | a request line that is refused is the refusal of the request, with its status, whatever headers follow |
| Requests.FirstBadHeader | src/HttpRequest.c:22-35 | behind any good headers the first line that is no header decides the refusal and its status, however the request goes on |
| TransferEncoding.EqChunked | src/HttpBody.c:236-245 | true exactly for "chunked" up to case |
| TransferEncoding.TransferEncodingParse | src/HttpBody.c:261-316 | the cursor loop agrees on every input with: split at commas, trim, drop empty elements, strip parameters, classify |
| TransferEncoding.WalkIsClassify | src/HttpBody.c:261-316 | counting names one by one with early refusals gives the verdict that the whole list of names has |
| TransferEncoding.Verdicts | src/HttpBody.c:261-316 | accepted exactly for one element that is chunked; unsupported exactly when all names are tokens, another coding is present and chunked is absent or only last; bad request otherwise |
| TransferEncoding.SplitExactly | src/HttpBody.c:261-316 | the elements of a value are the one list without commas in its elements that joins to it |
| TransferEncoding.NamesExactly | src/HttpBody.c:261-316 | elements of spaces only are dropped, and the names of the others stand in their order |
| TransferEncoding.NameExactly | src/HttpBody.c:278-284 | the name of an element is what stands before its parameters and the spaces in front of them |
| Admissions.AdmittedFraming | src/Connection.c:134-197 | an admitted request is framed by chunked coding without Content-Length and not in HTTP/1.0, or by a length within bounds, and 100-continue is owed only to a request with a body (which requests are admitted is the next row) |
| AdmissionRules.AdmittedExactly | src/Connection.c:121-197 | a request is admitted with this framing if and only if it is HTTP/1.0 or has a Host, every Transfer-Encoding line is just chunked and then there is no Content-Length and no HTTP/1.0, and the first Content-Length, if any, is a number within the limit; a 100 is owed if and only if it is HTTP/1.1 with a body and its first Expect says so |
| AdmissionRules.RefusedStatusExactly | src/Connection.c:124-173 | a refusal is 501 if and only if the Host is as it should be and the first coding line that is not just chunked is well-formed, 413 if and only if there is no coding and the first length exceeds the limit, and 400 otherwise |
| AdmissionRules.StaysOpenExactly | src/Connection.c:121-132 | the connection is asked to stay if and only if the request is HTTP/1.1 with a Host and has no Connection header or a first one that says keep-alive |
| ConnAdmits.BuiltAdmissible | src/Connection.c:97-197 | in every run, in any slot, each request that is built keeps these rules, so it is HTTP/1.0 or has a Host |
| ConnAdmits.BuiltFramed | src/Connection.c:72-95 | in every run of a slot that was left no length, each request that is built is its head and then exactly its body: as many bytes as its header declares, or a chunked body of the grammar with that payload |
| ConnAdmits.ContinueExactly | src/Connection.c:175-197 | the interim 100 is begun if and only if an admissible head that is owed one has arrived and nothing behind it |
| Admissions.CodingAgreesExactly | src/Connection.c:135-141 | judging the Transfer-Encoding lines one by one gives the verdict of the one list they are together if and only if there is one line or the first forces both: a malformed line always, a line of just chunked when the others are not all empty and the first of them that is not just chunked is malformed, an empty one when the others together are malformed, any other when the others list tokens with chunked nowhere but last |
| Admissions.RefusedExactly | src/Connection.c:135-141 | the lines are refused as a bad request if and only if the first that is not just chunked is empty, has a name that is no token, or has chunked before another name |
| Admissions.ChunkedAcceptedExactly | src/Connection.c:135-141 | the lines are accepted as chunked if and only if each of them is just chunked, once or many times |
| Admissions.PromotedAdmission | src/Connection.c:159-173 | putting another Content-Length line first makes its value the declared length, or refuses the request when it is unreadable |
| Admissions.FramingDeterminedExactly | src/Connection.c:159-173 | the framing of an admitted request is independent of the order of its Content-Length lines if and only if all of them declare that length |
| Samples.TwoLengthsAdmitted | src/Connection.c:159-173 | a request with any two lengths is admitted with the first, kept alive, and in the other order with the second |
| Samples.ChunkedTwiceAccepted | src/Connection.c:135-141 | chunked in two lines is accepted, though the list of both would be a bad request |
| Responses.SerializeResponse | src/HttpResponse.c:47-122 | the buffer begins with exactly the wire form of the response, and it fails exactly when that does not fit |
| Responses.WriteHeader | src/HttpResponse.c:19-24 | writes one header line behind what is there, or fails exactly when it is cut |
| Responses.ErrorFits | src/HttpResponse.c:160-190 | every canned error response fits the response buffer |
| Responses.HeadReadsBack | src/HttpResponse.c:47-122 | the server's own header parser reads a serialized header block back to its headers in order |
| Responses.GeneratedLengthIsBodyLength | src/HttpResponse.c:76-93 | the generated Content-Length, read by the server's own parsers, is the number of bytes after the blank line |
| ConnTells.ResponseRead | src/HttpResponse.c:47-122 | read back with the server's own parsers, a response is its status and reason; the date, the handler's headers in order, Connection with keep-alive or close as asked, and the one framing header its kind of body needs; and then its body |
| ConnTells.RefusalRead | src/HttpResponse.c:160-190 | a canned error is read with its reason, a date, Connection: close and a length, and its body is the reason with a NUL |
| Network.Recv | src/Connection.c:36-55 | a recv neither loses nor invents bytes, delivers at least one and at most the room, and uses up its event |
| Network.Send | src/HttpResponse.c:124-148 | a send takes at most what it is offered and touches nothing but its script |
| ConnSpec.Step | src/Connection.c:462-477 | one step keeps the connection valid and, unless it closes, moves down a rank or counts a request |
| ConnSpec.StepStream | src/Connection.c:398-460 | the stream pump returns, by pulls left and stage of the frame, and keeps the connection valid |
| ConnSpec.Dispatch | src/Connection.c:462-477 | the dispatcher returns for every world, by requests left and phase rank, and ends in a valid state |
| ConnSpec.Run | src/Connection.c:462-477 | any number of wake-ups keeps the buffers and the request count within bounds |
| Framing.FrontExtends | src/Connection.c:72-95 | once the front of a byte stream is settled as a request or a refusal, what follows does not change it |
| Framing.RequestsOfSpans | src/Connection.c:277-288 | whole requests followed by a buffer are those requests and then what the buffer holds |
| Framing.RequestsOfExtends | src/Connection.c:277-288 | a longer stream only adds requests at the end |
| ConnFraming.StepKeeps | src/Connection.c:462-477 | every step keeps the framing invariant: received bytes are consumed spans then the buffer, and each phase knows its head, decoder or span |
| ConnFraming.ConsumeConserves | src/Connection.c:277-288 | consuming, also when it discards the whole buffer, takes exactly one whole request and leaves the rest |
| ConnFraming.RunKeepsFraming | src/Connection.c:462-477 | the framing invariant holds after any number of wake-ups in any world, in any slot that was left no length |
| ConnRuns.RunConserves | src/Connection.c:277-288 | bytes received are a prefix of what was sent and are exactly the consumed spans in order and then the buffer, and each span is one whole request of the reference |
| ConnRuns.WaitingMeansAllBuilt | src/Connection.c:18-60 | when a wake-up ends waiting for input, every request that has fully arrived was built |
| ConnRuns.BuiltPrefix | src/Connection.c:290-356 | the requests built are an initial part of the requests in the peer's whole stream |
| ConnRuns.SplitIndependence | src/Connection.c:18-60 | two connections fed one stream cut in any two ways build the same requests up to where each has got, and the same list once both have it all |
| ConnRuns.HandlerSeesBodyExactly | src/Connection.c:220-239 | the handler's bytes begin with the declared body, and are exactly it if and only if nothing else was buffered, which is when the next-request offset is 0 |
| ConnRuns.HandlerSeesNext | src/Connection.c:220-239 | with any bytes buffered behind the declared body the handler is given the body and those bytes |
| ConnRuns.HandlerGivenExactly | src/Connection.c:72-95 | whatever step makes a request ready, the bytes in front are one whole request of the reference and its handler is given its body: the payload of a chunked one, nothing without a length, and exactly the declared body unless more is buffered behind it |
| ConnSlots.ClosingSeesMore | src/Connection.c:220-239 | a request of any length with anything behind it in the buffer is such a case |
| ConnWire.FinishAccounts | src/Connection.c:369-383 | completing a message moves it from the bytes under way to the messages sent and counts it, unless it is the interim 100 |
| ConnWire.StreamSendKeeps | src/Connection.c:385-396 | sending any part of the staged bytes keeps the wire a prefix of the stream's due bytes, and a send that fails closes the connection with its producer gone |
| ConnSends.FailedSendCloses | src/Connection.c:201-396 | in every run, in any slot and in all three sending phases, a send that finds the peer gone or fails is the last that is made: the connection is closed, its producer is gone and every cleanup owed was called |
| ConnSends.BrokenOffExactly | src/Connection.c:385-396 | a peer that is gone while a part of a stream is staged closes the connection in that wake-up, with one cleanup if there is one and nothing more on the wire |
| ConnEnds.WakeUpEnds | src/Connection.c:462-477 | every wake-up of every run ends closed, or reading with nothing to be had for now and no peer that is gone, or sending with a last send that left something to do and did not fail |
| ConnCloses.ClosesExactly | src/Connection.c:369-383 | in every run a response that answers something that did not ask to stay, or is the last allowed, is the last and the connection is closed; and a closed connection has one of four reasons: its last send failed, the peer was gone before the head of a request was there, the producer failed, or its last response was such a one |
| ConnTells.ClientTold | src/HttpResponse.c:38-44 | in every run each final response, read with the server's own parsers, says keep-alive or close: a refusal says close, with the status of its cause, and a reply says keep-alive if and only if the request it answers asked to stay or the flag was left in the slot, with the handler's status, 404 without a handler or 500 if it does not fit |
| ConnTells.ToldAndDone | src/Connection.c:369-383 | the reply that says close is the last and the connection is closed; after one that says keep-alive, below the limit, it is open unless a send failed, the peer was gone or another response was begun |
| ConnWire.StreamPullKeeps | src/Connection.c:411-430 | a pull stages exactly the next frame, the last frame at the end, or settles the producer on an error |
| ConnWire.RunKeeps | src/Connection.c:462-477 | the wire invariant, with message accounting, stream contents and producer lifecycle, holds after any number of wake-ups in any world |
| ConnPromises.RunWire | src/Connection.c:369-383 | accepted bytes are the completed messages, abandoned attempts, then a prefix of the message under way, and final responses are as many as counted, at most the limit |
| ConnPromises.StreamExact | src/Connection.c:398-460 | a stream under way is a prefix of head, framed payloads and last frame, and a completed one is exactly that |
| ConnPromises.StreamDecodes | src/Connection.c:398-460 | a completed streamed response decodes, by the server's own decoder and whatever follows, to exactly the producer's payloads |
| ConnPromises.CleanupBalance | src/Connection.c:264-269 | a history that keeps the producer contract has one cleanup per install, up to the one still owed |
| ConnPromises.NoPullAfterEnd | src/Connection.c:411-457 | no pull follows one that ended or failed, or a cleanup, of the same stream |
| ConnPromises.RunLifecycle | src/Connection.c:264-275 | in every run the producer contract is kept, and whenever no stream is being sent every installed cleanup was called once |
| ConnPromises.AttemptRepeats | src/Connection.c:369-383 | one attempt at a buffered response puts its accepted bytes on the wire, completes exactly when all were accepted, and otherwise starts over |
| ConnPromises.BufferedExactly | src/Connection.c:369-373 | over any script of partial and blocked sends and then a whole one, the wire holds the bytes of every partial send and then the response, which is there exactly once if and only if each of those sends took nothing |
| ConnPromises.PartialWriteRepeats | src/Connection.c:369-373 | a partial write and then a whole one put the first bytes of the response on the wire twice |
| ConnRefusals.RefusalBegins | src/Connection.c:97-197 | any refused front, by its head or by its chunked body, puts the canned error of its status on its way, leaves the buffer as it is, and keeps the connection alive if and only if the flag was left set or the head parses and asks for it |
| ConnRefusals.RefusedStays | src/Connection.c:369-383 | a request refused for its head or its chunked body is answered but stays in the buffer, and the connection stays open if and only if the flag was left set, or the head parses and asks for it, and the limit is not reached |
| ConnRefusals.RefusedRepeats | src/Connection.c:369-383 | a refused request that asks to stay is answered with the same refusal until the limit in one wake-up, and nothing is built |
| ConnRefusals.NothingBehindRefused | src/Connection.c:97-197 | once a refused request stands in front, no request is ever built again, in any world |
| ConnRefusals.RefusedAndKept | src/Connection.c:167-173 | a Host and an unreadable Content-Length are refused and ask to stay |
| ConnRefusals.BodyRefusedAndKept | src/Connection.c:241-262 | a Host and chunked coding with something that is no chunk behind them are admitted, ask to stay, and are refused for the body |
| ConnAnswers.RunAnswers | src/Connection.c:290-356 | in every run the i-th final response is byte for byte the canned error of a refusal or the serialized reply to the request it answers, built requests are answered in order and once each, and responses are as many as counted with at most one under way |
| ConnCauses.RefusalsExplained | src/Connection.c:97-262 | in every run each refusal is explained by the bytes received and the requests built until then: the front of the rest is refused by the reference with that status, or fills the buffer and is a head, a chunked or another body (431, 413, 400), or is a body broken off by the last receive (400) |
| Clients.HeadRead | src/HttpResponse.c:47-122 | a stream that begins with a head of the server's is read, by the server's own parsers, with that status and those headers, and its body is sought right behind the head |
| Clients.PlainTellsExactly | src/HttpResponse.c:75-102 | a buffered or empty response that the server frames tells a client its end, whatever follows, if and only if it has a body and its status allows one, or neither |
| Clients.StreamTellsExactly | src/HttpResponse.c:104-118 | a streamed response tells its end, whatever follows, if and only if its status allows a body |
| Clients.EmptyOkUntold | src/HttpResponse.c:97-102 | behind a 200 without a body a client finds no response |
| Clients.SplitBack | src/HttpResponse.c:47-122 | responses that tell their ends are split back, one after the other, from any stream that begins with them |
| ConnClients.ClientReads | src/Connection.c:290-383 | in every run whose replies tell their ends and are not repeated in part, a client splits the wire into exactly the messages sent, in order, and takes nothing under way for a response while some of it is still to be sent |
| Clients.PartUnsplit | src/HttpResponse.c:124-148 | in a part of a response that tells its end a client finds no response |
| ConnProgress.Progress | src/Connection.c:462-477 | on a cooperative network a wake-up ends closed, out of sends, or waiting with no input to be had, and then every request that arrived was built and every response begun has left |
| ConnService.Service | src/Connection.c:462-477 | whole requests that ask to stay and fit, fewer than the limit, over a cooperative network and with producers that do not fail, never close the connection, and once all have arrived all were built in order and answered |
| ConnService.SimpleIsGood | src/Connection.c:121-132 | such streams exist: a GET with a Host header |
| ConnSlots.SlotFramesExactly | src/Networking.c:82-107 | a new connection in a slot frames every stream right, in every world and after every wake-up, if and only if the slot was left no declared length |
| ConnSlots.LengthLeftBehind | src/Networking.c:82-107 | every length up to the limit can be left behind, by one request with that length that is answered and closed, and then the slot is unfit |
| ConnSlots.StaleOffsetIgnored | src/Networking.c:82-107 | a next-request offset left behind changes nothing but itself, and is overwritten before a response is built |
| ConnSlots.KeepAliveExactly | src/Connection.c:121-132 | after a head the connection is kept alive if and only if the flag was left set or the request parses and asks for it |
| ConnSlots.FlagLeftBehind | src/Networking.c:82-107 | a slot's first connection can leave the keep-alive flag set and no length: a request that asks to stay whose peer is gone when it is answered |
| ConnSlots.LeftFlagDecides | src/Networking.c:82-107 | in any slot, a request of any length that asks to be closed is answered and then closed if and only if no flag was left; with the flag it is answered keep-alive and the connection waits |
| ConnSlots.SlotIdle | src/Networking.c:82-107 | no slot hands a producer on, whatever connections it served, so the wire and lifecycle theorems hold in every slot |
| ConnSlots.StaleLengthSwallows | src/Networking.c:82-107 | with a length left behind, that many bytes of what follows are built as the body of a request without one |
| ConnSlots.StaleLengthStalls | src/Networking.c:82-107 | with a length left behind, a request without a body is received whole and not built |
| Connections.Connection.constructor | src/HttpServer.c:60 | a slot never used before is all zero over its socket and host |
| Connections.Connection.Init | src/Networking.c:82-107 | taking over a slot resets exactly the fields that connection_init resets |
| Connections.Connection.RecvHeader | src/Connection.c:18-60 | receiving into the buffer in place is the specified head reading |
| Connections.Connection.Decide | src/Connection.c:121-194 | the checks in their order compute the specified admission, keep-alive and coding |
| Connections.Connection.ReadRequest | src/Connection.c:97-197 | updating the fields is the specified header step |
| Connections.Connection.DispatchBody | src/Connection.c:72-95 | updating the fields is the specified choice of body phase |
| Connections.Connection.RecvBodyCl | src/HttpBody.c:17-60 | receiving in place is the specified Content-Length reading |
| Connections.Connection.RecvBodyChunked | src/HttpBody.c:62-120 | draining the decoder object against the growing buffer is the specified chunked reading |
| Connections.Connection.ConsumeRequest | src/Connection.c:277-288 | moving the pipelined bytes to the front in place is the specified consumption |
| Connections.Connection.BuildResponse | src/Connection.c:290-356 | updating the fields and the response buffer is the specified build step |
| Connections.Connection.Send100 | src/Connection.c:201-218 | updating the fields is the specified 100-continue step |
| Connections.Connection.SendResponse | src/Connection.c:369-383 | updating the fields is the specified buffered send step |
| Connections.Connection.ResetFields | src/Connection.c:358-367 | clears exactly the fields the reset clears |
| Connections.Connection.ReleaseStream | src/Connection.c:264-269 | the producer is forgotten and its cleanup logged if it has one |
| Connections.Connection.AbortStream | src/Connection.c:271-275 | the producer is released, the stream phase done and the connection closed |
| Connections.Connection.SendStream | src/Connection.c:398-460 | the pump over the response buffer in place is the specified stream step |
| Connections.Connection.StepProcess | src/Connection.c:462-477 | the loop over the object's fields is the specified dispatcher |
| Connections.Connection.Serve | src/Connection.c:462-477 | any number of wake-ups of the object is the specified run, so every theorem about runs holds of it |
| Arenas.PowerOfTwoTest | src/Arena.c:47 | the bit test holds exactly of powers of two |
| Arenas.AlignUpRounds | src/Arena.c:55 | for a power-of-two alignment the mask gives the least multiple that is not below the cursor |
| Arenas.AlignUpSafeExactly | src/Arena.c:55 | the mask result is always aligned, and it is not below the cursor if and only if the addition does not wrap |
| Arenas.AllocSafeExactly | src/Arena.c:44-68 | an allocation keeps live blocks apart and inside the capacity if and only if the addition does not wrap, the request fails, or no live block reaches past the start |
| Arenas.WrapOverlaps | src/Arena.c:55-62 | with one block of more than half the address space live, an allocation aligned to that half succeeds inside it |
| Arenas.RunSafe | src/Arena.c:27-68 | over every run of rewinds and of allocations that meet this condition, live blocks are disjoint, aligned and inside the capacity |
| Arenas.MarkUndoes | src/Arena.c:20-34 | after any allocations, and rewinds to a mark or above, going back to the mark restores the cursor and exactly the blocks live then, up to empty ones at the mark |
| Arenas.InitCarves | src/Networking.c:89-106 | the three allocations succeed and the cursor stands at the checkpoint |
| Arenas.ScratchApart | src/Connection.c:366 | as long as rewinds stay at or above the checkpoint, the three buffers stay live and no scratch block overlaps them |
| Arenas.CarveBuffers | src/Networking.c:82-107 | the arena holds exactly the three buffers and the mark is the checkpoint |
| Arenas.Arena.constructor | src/Arena.c:10-18 | an empty arena over its memory |
| Arenas.Arena.Mark | src/Arena.c:20-25 | the mark is within the capacity, and rewinding to it at once changes neither the cursor nor any live block |
| Arenas.Arena.ResetTo | src/Arena.c:27-34 | the blocks above the mark are gone, the others stay, and the arena stays safe |
| Arenas.Arena.Reset | src/Arena.c:36-42 | the arena is empty |
| Arenas.Arena.Allocate | src/Arena.c:44-68 | the specified block or nothing and no change; the arena is safe afterwards if and only if the addition did not wrap onto a live block, and the address is aligned if and only if the base is |
| Dictionaries.HashKey | src/Dictionary.c:12-20 | the loop computes the FNV hash with products wrapped at 64 bits |
| Dictionaries.Dictionary.constructor | src/Dictionary.c:58-65 | an empty table |
| Dictionaries.Dictionary.Find | src/Dictionary.c:80-92 | returns what the abstract map holds for the key, or nothing |
| Dictionaries.Dictionary.Insert | src/Dictionary.c:22-43 | the abstract map gets the key and value, the links, buckets and uniqueness of keys are kept, and the status is 1 |
| Dictionaries.Dictionary.PushFront | include/http_server/linked_node_macro.h:23-31 | the node becomes the head of its chain, both links agree everywhere, other chains are unchanged |
| Dictionaries.Dictionary.PrependPlaced | src/Dictionary.c:36-42 | a new key at the head of its chain keeps every key in its one bucket and unique |
| Registries.AddFile | src/HttpRouter.c:310-343 | the entry of that mode is stored under the URL, or nothing changes when the file is missing or cannot be read |
| Registries.ContentLookup | src/HttpRouter.c:223-257 | the answer and the registry it leaves are the specified ones |
| Registries.EtagNeverCut | src/HttpRouter.c:64-65 | the tag is W/"time-size" in hex, at most 37 bytes, so its 40-byte field holds it whole |
| Registries.EtagExact | src/HttpRouter.c:64-65 | two tags are equal if and only if time and size are |
| Registries.RevalidatedIsCopy | src/HttpRouter.c:228-239 | revalidating a stored copy settles on a copy of the file as it is now |
| Registries.EntriesAreRegistered | src/HttpRouter.c:310-343 | after every history a URL has an entry if and only if a file was stored under it, and then that of the last such registration: its mode, its path as far as it is kept, the content of a static resident one and time, size and tag of a streamed one |
| Registries.StaticServed | src/HttpRouter.c:249-254 | a static resident URL is answered with the content its file had when it was registered, whatever happened since |
| Registries.HistorySourced | src/HttpRouter.c:91-116 | after every history each dynamic resident entry is a copy of a version its file had |
| Registries.RegistryCoherent | src/HttpRouter.c:223-257 | after every history a dynamic resident answer is the file as it is now, misses and gone files are told exactly, and other URLs are untouched |
| Registries.ConditionalGetCoherent | src/HttpRouter.c:204-245 | over every history, a client that echoes the tag it was given is answered from the present file, told "not modified" if and only if time and size are those it holds, and then holds the present content unless the URL was given to another path |
| Registries.NotModifiedExactly | src/HttpRouter.c:204-245 | over every history, a dynamic resident URL that is not gone is answered "not modified" if and only if the request has a tag that is "*" or that of the present file, or no tag and a date that can be read and is not before the present file's time |
| Registries.DateToldExactly | src/HttpRouter.c:214-218 | a client that sends back the time of the file it was served is told "not modified" if and only if the present file is not younger |
| Registries.ReregisteredExactly | src/HttpRouter.c:204-245 | a client that holds the first file of a URL given to another path is told "not modified" if and only if the second has its time and size |
| Registries.LookupFreshExactly | src/HttpRouter.c:228-239 | for all versions f and g of the files: after f, a registration and a change to g, a lookup carries the content in g if and only if the two versions of the file do not differ in content with equal time and size |
| Registries.UnseenChange | src/HttpRouter.c:233-239 | every edit that keeps time and size is served stale |
| Registries.PathServedExactly | src/HttpRouter.c:61-62 | after a registration a lookup carries the content of the registered file if and only if its path has at most 255 bytes, or the cut path names a file of equal time and size, or a readable one of equal content |
| Registries.LongPathGone | src/HttpRouter.c:61-62 | a file registered under a longer path is answered gone when no file has the cut path |

## Left out

- HEAD: the method parser never yields it, so the head-only branches are reached only where a response is built head-only by a handler.
- Sockets, poll, accept, the server loop and client set: recv and send are scripts, and a wake-up is a call of the dispatcher.
- Poll events: which events a phase waits for is not modelled (src/HttpServer.c:27-43 names none for the 100-continue phase); a run is any number of wake-ups.
- EINTR: the script of one wake-up is finite, so it holds finitely many interruptions.
- The Date header, strftime, strptime and timegm: a date is an opaque non-empty value of at most 64 bytes, read once per response; If-Modified-Since is compared through an arbitrary date parser.
- Routing: the reply to a request is taken from a script; route lookup, the Allow list and duplicate detection are not modelled, nor are MIME types and debug printers.
- Memory: malloc, free and their failures are not modelled, and header strings, request lines and header arrays are sequences rather than fixed arrays, so writing them in place is not captured.
- Requests.RequestParse: requires a blank line in the first bytes or storage beyond them, which the connection guarantees, because the loop may look at the byte after the last line.
- Arenas.ScratchApart: the arena model and the Connection class are separate; the class allocates its three buffers as disjoint arrays.
- ConnPromises.StreamExact: speaks of responses that are not head-only, as parsed requests never ask for HEAD.
- ConnRuns.RunConserves: like the other framing results, asks for a slot that was left no length, which connection_init does not see to; SlotFramesExactly says that this is exactly what is needed.
- ConnCloses.ClosesExactly: like ConnTells.ToldAndDone and ConnAdmits.BuiltFramed, asks for a slot that was left no length.
- ConnTells.ClientTold: speaks of replies that leave the Connection header to the server, with headers that can be read back, a status of three digits and a reason without CR; RunAnswers gives the bytes of all others.
- ConnClients.ClientReads: speaks of replies that leave Content-Length and Transfer-Encoding to the server and are not head-only; after a close in the middle of a response it says only that what was sent in full is found first.
- ConnService.Service: speaks of runs in which sends remain, since a script that has run out is a socket that takes no more.
- Connections.Connection.BuildResponse: takes the reply from a script, so registry lookup, routing and the handlers' scratch allocations are not part of it.
- Connections.Connection.ResetFields: the rewind of the arena to the mark is not part of it; ScratchApart says what the rewinds keep.
- Dictionaries.Dictionary.Insert: the freeing of a replaced value and a failing malloc, which would return -1, are not modelled.
- Arenas.Arena.Allocate: the last assert of the code, that the address is aligned, is stated as an equivalence with an aligned base and does not stop the program.
- ConnRuns.SplitIndependence: compares framed bodies, the first Content-Length bytes of what the handler sees; HandlerSeesBodyExactly says when the two are the same.
- A producer's script is finite, each payload is non-empty and at most the buffer it is given, and after the script it reports the end.
- Registries.RegistryCoherent: assumes that changes of a content alter its time or size, that stat and read see the same file, and that paths fit; the first and last are what LookupFreshExactly and PathServedExactly are about. Last-Modified, Content-Length and Content-Type of an entry are not modelled.
- Directory registration, streamed file bodies and the freeing of replaced entries are not modelled.
- Dictionary keys are byte strings without NUL, as C strings are.
- The limits are those of the default profile of include/http_server/Config.h.
