# Lotos, verified

A Dafny model of the Lotos web server: its incremental HTTP parser, the request pipeline on top of it, the response
handlers, the connection heap with its memory pool, and the event loop that ties them together, with the hash table and
the growable buffer they rest on.

The code that works in place is modelled in place: `ParseArchive`, `LiveRequest`, `Heap`, `Pool`, `Dict`, `Buffer` and
`Loop` are classes whose methods run the loops of the C functions over mutable fields and arrays. The parser and the
handlers also exist as functions on values (`HttpParser`, `Request`, `Response`); every method is proved equal to its
function, and the properties of whole inputs and whole runs are proved about the functions. A `char *` into the input
buffer is an index and NULL is -1.

Main results:

- **Bytes in, bytes out.** A request line, accepted header lines, a blank line and the announced body, cut by the network
  in any way whatever, are answered with the file their path names; whatever the socket takes at each call, the wire
  carries the response head and then the file, in full once the response is done (`RequestMeaning.ExchangeIsExact`). Head
  and body are functions of the bytes, the file, and what `World` has for the text of a head with its date. Over the life
  of a connection the answers to any number of such requests, between which files and date may change, go out in order and
  without gaps (`Exchanges.AnswersGoOutInOrder`). What the event loop brings to a connection is always such a life, and
  request and bytes sent are those of that life (`Server.LivesOn`), so this holds of the loop (`Server.Loop.AnswersAreSent`).
- **Every visit is accounted for.** For all bytes, the first visit with them ends in exactly what the grammars, the file and
  the header lines say: 400, 505, a fault or 404 for the line, more bytes asked for, or the answer to the lines and the body
  (`Visits.EveryVisit`). Error responses are a head and then the page, in this order, whatever the cuts and on the wire
  (`Visits.BrokenLineHoweverCut`, `UnservedHoweverCut`, `MissingHoweverCut`, `ErrorsOnTheWire`).
- **Refused requests are answered as their bytes say, too.** A refused header line does not end the header loop, so pages
  and heads add up and later lines still count: `HeaderMeaning.HeaderMeans` gives what one line does and
  `RequestMeaning.RequestIsAnswered` the whole answer, refused lines included.
- **Exactly when cuts matter.** The parsers alone never depend on the cuts. For the whole pipeline, with its writes into
  the buffer, and for all bytes: some cut changes the answer (the status returned, status code, method, URL, header slots,
  keep-alive choice, response and interest mask) if and only if, behind a request line whose file is there, header lines
  with a refused one among them are followed by bytes that show: a header line with a name that has a slot, a byte that
  breaks the line, or a blank line whose body is there or whose coding was refused
  (`CutIndependence.CutsMatterExactlyWhen`).
- **The grammar is exact.** Both parsers answer OK if and only if a request line or a header line stands in the input, and
  cut it where the unambiguous grammar does; a header block likewise, with a bound on its lines by its bytes. Either
  line is INVALID if and only if one of its bytes breaks it. The grammars use alphabets and method names that are written
  out, not the tests of the machine.
- **The loop is safe.** In every round of the event loop no event names a freed connection, a failed one is closed by the
  prune of the same round, as is one whose peer has gone, no other is closed that is young enough, prune is exact, heap
  order, back-pointers and the bijection of heap and pool hold, and the interest mask never arms input without a handler.

| File | What it holds |
|---|---|
| `Alphabet.dfy`, `TextLaws.dfy` | the characters of HTTP written out; what tests, lowering and comparison mean by them |
| `HttpParser.dfy`, `ParserMachine.dfy` | the parsers as functions, and as loops over a parse archive |
| `ChunkIndependence.dfy` | parsing in pieces |
| `RequestLineGrammar.dfy`, `HeaderGrammar.dfy`, `UrlSplit.dfy` | the languages accepted and the slices cut out |
| `Request.dfy`, `RequestMachine.dfy` | the request handlers as functions, and as methods |
| `EndToEnd.dfy` | the pipeline on a longer buffer |
| `HeaderMeaning.dfy` | what header lines mean, accepted and refused ones |
| `RequestMeaning.dfy` | what a whole request is answered with |
| `Stalls.dfy`, `CutIndependence.dfy` | exactly when a cut makes a visit stall, and exactly when cuts show in the answer |
| `Visits.dfy` | what every first visit is answered with; error responses up to the wire |
| `Response.dfy` | the response handlers, conservation, progress |
| `ConnectionRun.dfy` | one connection over its life; the interest mask; keep-alive |
| `Exchanges.dfy` | requests and responses in turn on one connection |
| `HeapOrder.dfy`, `ConnectionHeap.dfy` | order on keys, and the heap of connections |
| `MemPool.dfy`, `Dict.dfy`, `Buffer.dfy`, `Common.dfy` | the supporting structures |
| `Server.dfy` | the event loop |
| `Examples.dfy` | inputs in full, one for each main result and one on the failing side of each exact condition |

What a caller of the C code can trip over, and where the code and its comments part, with the input in `Examples.dfy` in brackets:

- The comment over `heap_bubble_down` (src/connection.c:47) offers it for extracting. From an arbitrary slot that is not
  enough: `RemovalIsRepairable` says exactly when it is, and the loop only ever removes from the root or the last slot
  (`RemovalFromTheMiddle`).
- A URL ended by a TAB leaves the path unset although the request line accepts it, and the handler then follows a NULL
  pointer: `FaultsExactlyWhen` (`TabFaults`).
- A bare LF in a header value parks the parser in a state without a case: `StuckExactlyOnBareLf` (`BareLfParks`).
- A refused header line does not end the header loop (src/request.c:252-256 with 472), so what comes behind it in the same
  visit counts: `CutsMatterExactlyWhen` (`RefusedConnection`; `RefusedQuietly` is one on the other side).
- For a directory without an index.html the code checks the wrong descriptor (src/request.c:208-213): the size of the
  directory is advertised and no body is sent (`DirectoryWithoutIndex`). `AdvertisedLengthIsRight` gives the exact
  condition, which also covers files too large for an `int`: the length is right below 2^31 and at the multiples of 2^32,
  for which 0 is announced and nothing is sent.
- An error page is marked done before it is sent, so an EAGAIN cuts it short: `ErrorPageIsSentExactlyWhen`. When a later
  header in the same visit asks to keep the connection, it goes on all the same, with the page thrown away
  (`PageThrownAway`).
- A head that is assembled after a refused line announces the error page although none follows it (src/response.c:125-128
  and 147-151): `RequestIsAnswered`.
- Bytes of a next request that arrive in the visit which completes the one before are lost when the buffer is cleared
  (src/request.c:110): `EarlyBytesAreLost` (`EarlyRequest`). Between requests, then, the cut does matter.

## Model

| member | source | states |
|---|---|---|
| TextLaws.ClassesAreTheAlphabets | src/http_parser.c:227-276 | the character tests are membership in alphabets written out, and a digit stands for its place among the ten |
| TextLaws.LowersLetters | src/ssstr.c:18-23 | an upper-case letter becomes the lower-case one at its place of the alphabet, and nothing else changes |
| TextLaws.SameInLowerCase | src/ssstr.c:18-23 | two texts are equal in lower case if and only if they differ in the case of letters only |
| TextLaws.SameSlotInAnyCase | src/request.c:243-256 | header lines whose names differ in the case of letters only fill the same slot, each with its value |
| TextLaws.KnownNames | src/request.c:43-63 | the names that have a slot |
| TextLaws.ComparesWithoutCase | src/ssstr.h:43-45 | the comparison with a literal looks at as many characters as the literal has, and not at their case |
| TextLaws.CodingIsNamed | src/request.c:333-356 | a value names the coding whose name it begins with, at most one, and none when there is no such name |
| TextLaws.SizeInField | src/request.c:203-219 | a size in an int is the one number of its range that differs by a multiple of 2^32 |
| HttpParser.FindEither | src/http_parser.c:394-442 | the first of two bytes in a range, and none before it |
| HttpParser.SplitUrl | src/http_parser.c:385-458 | the slices of a URL lie inside the bytes read, and a path that is set is not empty and ends before them |
| HttpParser.RequestLineStep | src/http_parser.c:36-206 | a round keeps the stored positions inside what has been read and never moves the parse position |
| HttpParser.HeaderLineStep | src/http_parser.c:232-325 | the same, and a line that completes has its name and value positions in order, so the assertions of HEADER_SET hold |
| HttpParser.Run | src/http_parser.c:31-214 | AGAIN consumes the whole buffer, an answered line moves the position past it and not beyond the buffer, INVALID leaves it; the delivered slices end before it |
| ChunkIndependence.RunIgnoresStoredPos | src/http_parser.c:34-35 | the stored parse position is only where to start: it has no other influence on the outcome |
| ChunkIndependence.RunOnLongerBuffer | src/http_parser.c:207-209 | an answer does not depend on later bytes; after AGAIN the next call on more bytes ends as one call on all of them |
| ChunkIndependence.ChunkingDoesNotMatter | src/http_parser.c:31-338 | for every byte string and every way of cutting it, status, state, slices, version and counts are those of one call (only the position after INVALID may differ) |
| ChunkIndependence.BareLfNeverAnswers | src/http_parser.c:308-310 | the state without a case swallows every later byte and asks for more |
| RequestLineGrammar.NumberGrows | src/http_parser.c:148-195 | the 16-bit accumulator equals the decimal value and never exceeds 99 on the way |
| RequestLineGrammar.StepKeepsAt | src/http_parser.c:36-206 | one byte keeps the invariant that ties machine state and stored fields to positions of the grammar |
| RequestLineGrammar.RunIsSound | src/http_parser.c:31-214 | OK from any point of a line means a whole line stands there and the archive is the one the grammar dictates |
| RequestLineGrammar.RunIsComplete | src/http_parser.c:31-214 | from any point of a line of the grammar the machine reads it to the end and answers OK |
| RequestLineGrammar.AcceptsExactlyTheGrammar | src/http_parser.c:31-214 | OK if and only if the input begins with METHOD SP blanks URL blanks HTTP/major.minor CR LF in the code's reading of section 5.1 of RFC 2616 |
| RequestLineGrammar.InvalidExactlyWhen | src/http_parser.c:31-214 | INVALID if and only if some byte breaks the line in the part it is in, AGAIN if and only if all the bytes are the beginning of one |
| RequestLineGrammar.MethodIsTheNamed | src/http_parser.c:340-372 | parse_method finds the one method that has the name read, and INVALID when there is none |
| RequestLineGrammar.FindsThePartsOfTheLine | src/http_parser.c:31-214 | method by its name, URL slice, version and position are those of the line |
| RequestLineGrammar.NumberIsOneDigit | src/http_parser.c:161-163 | an accepted version number is at most 9, and above 1 only as a single digit |
| RequestLineGrammar.CutsAreUnique | src/http_parser.c:31-214 | the grammar is unambiguous |
| HeaderGrammar.RunIsSound | src/http_parser.c:225-338 | each kind of answer to a header line means the corresponding line of the grammar, with these slices |
| HeaderGrammar.FindsTheHeader | src/http_parser.c:329-337 | name and value slices are exactly the name and the value of the line |
| HeaderGrammar.FindsTheBlankLine | src/http_parser.c:243-249 | a blank line is answered CRLF_LINE and counted |
| HeaderGrammar.AcceptsExactlyTheGrammar | src/http_parser.c:225-338 | OK if and only if a header line of section 4.2 of RFC 2616, in the code's reading, comes next; CRLF_LINE if and only if a blank line does |
| HeaderGrammar.InvalidExactlyWhen | src/http_parser.c:225-338 | INVALID if and only if some byte is one that neither a header line nor a blank line, nor a value with a bare LF, can go on with |
| HeaderGrammar.HeaderIsUnique | src/http_parser.c:225-338 | one position has one header line |
| HeaderGrammar.StuckExactlyOnBareLf | src/http_parser.c:308-310 | the parser ends in the state without a case if and only if a value runs into a LF without a CR |
| HeaderGrammar.OkMovesOn | src/request.c:228-258 | every OK consumes at least five bytes: the measure that ends the header loop |
| HeaderGrammar.BlockIsRead | src/request.c:228-258 | a block yields its headers in order, then CRLF_LINE, with one count for each line |
| HeaderGrammar.BlockIsSound | src/request.c:228-258 | a block that ends in CRLF_LINE is header lines and a blank line |
| HeaderGrammar.BlockAcceptsExactlyTheGrammar | src/request.c:228-258 | both directions, and five bytes for each counted header line plus two bound the bytes consumed |
| UrlSplit.SpaceEndedUrl | src/http_parser.c:385-458 | path and query partition a URL ended by a space at its first '?' (section 3.2.2 of RFC 2616), and the extension is the text after the last '.' of the last segment, or unset |
| UrlSplit.PathIsSetExactlyWhen | src/http_parser.c:407-426 | the path is set if and only if the URL is ended by a space or holds a '?'; the query if and only if it is ended by a space |
| UrlSplit.ScanFindsPathEnd | src/request.c:187-190 | the later scan for the end of the path stops exactly at its last byte |
| UrlSplit.UrlEndIsTheLastByte | src/http_parser.c:433-436 | the only space that ends path or query is the byte that ends the URL |
| ParserMachine.MethodOf | src/http_parser.c:340-372 | the comparison by length and bytes recognises exactly the five upper-case names |
| ParserMachine.Extension | src/http_parser.c:444-457 | the backward loop finds the last '.' or '/' of the path |
| ParserMachine.UrlOf | src/http_parser.c:385-458 | the state machine of parse_url computes the split, and fails only without a leading '/'; on the characters of a URL its S_URL_END case (line 439) is dead |
| ParserMachine.ParseArchive.Init | src/http_parser.h:181-186 | the archive is the initial one whatever was in it |
| ParserMachine.ParseArchive.StepRequestLine | src/http_parser.c:36-206 | the switch performs one step of the machine on the fields, and a URL in reading holds neither blanks nor line ends |
| ParserMachine.ParseArchive.ParseRequestLine | src/http_parser.c:31-214 | the loop over the buffer computes Parse and leaves its archive |
| ParserMachine.ParseArchive.StepHeader | src/http_parser.c:232-325 | the switch performs one step of the machine on the fields |
| ParserMachine.ParseArchive.HeaderDone | src/http_parser.c:329-337 | the epilogue, with both assertions of HEADER_SET proved |
| ParserMachine.ParseArchive.ParseHeaderLine | src/http_parser.c:225-338 | the loop over the buffer computes Parse and leaves its archive |
| ParserMachine.ParseArchive.ParseHeaderBodyIdentity | src/http_parser.c:460-476 | counts the bytes received against the announced length |
| Request.HandleRequestLine | src/request.c:168-222 | OK leaves a later stage or none, AGAIN leaves only the parser moved, no byte is gained or lost, and the parser can go on |
| Request.HandleHeaders | src/request.c:224-262 | ends with the body stage or an error; after AGAIN the whole buffer has been read |
| Request.HandleBody | src/request.c:264-291 | OK leaves no handler; AGAIN leaves the stage as it is |
| Request.Call | src/request.c:161-163 | OK always moves to a later stage, which ends the handler loop |
| Request.Drive | src/request.c:142-166 | OK means no handler is left; a handler that is left can be called again |
| Request.CaseEqualStaysInSlice | src/request.c:301-356 | the unbounded comparison with a literal stops at the CR behind the value: it depends on the slice alone |
| Request.RunKeepsCr | src/http_parser.c:302-307 | wherever the parser was resumed, the value it delivers is followed by a CR |
| EndToEnd.UrlOfLine | src/request.c:186-190 | on an accepted line the scan for the end of the path stops at the end of abs_path, or has no path to scan |
| EndToEnd.FaultsExactlyWhen | src/request.c:187-189 | the scan follows a wild pointer if and only if the URL is ended by a TAB, holds no '?', and the version is served |
| EndToEnd.RequestLineResumes | src/request.c:170-172 | the stage resumed after AGAIN ends as if it had never stopped |
| EndToEnd.RequestLineOnLonger | src/request.c:178-221 | a finished stage does not look at later bytes; the NUL is written at the same place |
| EndToEnd.HeadersResume | src/request.c:228-233 | the same for the header stage, with the lowered names |
| EndToEnd.HeadersOnLonger | src/request.c:224-262 | a finished header stage writes and answers the same with more bytes behind |
| EndToEnd.BodyResumes | src/request.c:264-279 | the body count carries over |
| EndToEnd.DriveResumes | src/request.c:142-166 | two visits are one visit with all the bytes |
| EndToEnd.DriveOnLonger | src/request.c:142-166 | an answered request is answered so whatever follows it |
| EndToEnd.RequestLineWritesBehindParser | src/request.c:187-190 | the NUL lands before the parse position |
| EndToEnd.HeadersWriteBehindParser | src/request.c:243 | every lowered byte lies before the parse position, which never goes back |
| EndToEnd.FeedKeepsSlices | src/request.c:142-291 | for every cut: header slots and the parts of the URL point into the bytes received |
| HeaderMeaning.HeaderMeans | src/request.c:243-256 | one header line, refused or not: its slot under its lower-case name, what it settles, the page it is answered with, and nothing else |
| HeaderMeaning.AcceptedLines | src/request.c:301-330 | without a refused line the last Connection and the last Content-Length decide, and no page is made |
| HeaderMeaning.LinesArePassed | src/request.c:228-258 | the header loop over any lines: it goes on behind them with what they mean, writes only into them, and has lost its handler if and only if one is refused |
| HeaderMeaning.BlockIsHandled | src/request.c:224-262 | after a block each known slot holds the value of the last line of that name with its bytes as received, others are untouched, and keep-alive, length, coding, pages and code are what the lines settle in turn |
| RequestMeaning.LineIsHandled | src/request.c:168-222 | the file opened is the one the path names up to its first NUL byte, "./" for "/" |
| RequestMeaning.MissingIsAnswered | src/request.c:199-202 | a path that leads to no file: head and page with 404 and nothing else, whatever comes behind the line |
| RequestMeaning.RequestIsAnswered | src/request.c:142-291 | line, headers, refused ones included, and blank line in one visit: the 404 page without the file, else pages, head, codes, slots and mask as the bytes say, or AGAIN while the body is incomplete |
| RequestMeaning.AcceptedAnswer | src/request.c:264-291 | of these, a request without a refused line gets 200 and the head of its file |
| RequestMeaning.AnsweredHoweverCut | src/request.c:142-291 | an accepted request is answered so for every way of cutting its bytes, and the bytes under its slots, path and query are still those received |
| RequestMeaning.ResponseIsPending | src/request.c:441-450 | the answer leaves head and file content, and nothing else, to be sent |
| RequestMeaning.ExchangeIsExact | src/request.c:142-439 | for every cut of the input and every pattern of partial sends: the wire is a prefix of the head and the file that bytes and file determine, and all of it once done |
| Visits.BrokenLineIsAnswered | src/request.c:173-175 | a broken request line: head and page with 400 and nothing else, the connection to be closed |
| Visits.UnservedIsAnswered | src/request.c:180-182 | a version above 1 in either number: the same with 505 |
| Visits.PathlessFaults | src/request.c:187-190 | a served line without a path is the fault |
| Visits.OpenLineWaits | src/request.c:170-172 | the beginning of a line only moves the parser |
| Visits.LinesAreHandled | src/request.c:224-262 | header lines of a request whose file is there: what they have settled, and where the visit goes on |
| Visits.BrokenHeaderIsAnswered | src/request.c:233-235 | a broken header line adds head and page with 400 to the pages of the refused ones before it |
| Visits.HeadersWait | src/request.c:229-232 | without a break or a blank line the visit asks for more, with what the lines have settled |
| Visits.EveryVisit | src/request.c:142-291 | for all bytes: which of these, or the answer to the whole request, by the bytes and the file |
| Visits.BrokenLineHoweverCut | src/request.c:142-175 | a broken request line is answered so for every way of cutting the bytes |
| Visits.UnservedHoweverCut | src/request.c:142-182 | an unserved version too |
| Visits.MissingHoweverCut | src/request.c:142-202 | a missing file too |
| Visits.BrokenHeaderHoweverCut | src/request.c:142-235 | a broken header line behind accepted ones too |
| Visits.ErrorReachesWire | src/request.c:452-473 | the socket gets a beginning of the head and then the page, and both in full if and only if it takes them in the one visit |
| Visits.ErrorsOnTheWire | src/request.c:142-473 | the same over the life of the connection, which is closed by it |
| Stalls.RefusedStalls | src/request.c:252-256 | a visit whose bytes end behind lines with a refused one among them stalls with exactly what these lines settle |
| Stalls.StalledMeansRefused | src/request.c:252-256 | a visit that ends without a handler and without an answer has a refused line behind a request line whose file is there |
| Stalls.StallPoint | src/request.c:142-166 | a run that stalls does so as one visit with the bytes of its first chunks |
| Stalls.StallsExactlyWhen | src/request.c:142-291 | for all bytes: some way of cutting them stalls if and only if they hold such a refused line |
| CutIndependence.LastPartShows | src/request.c:228-291 | without another header line, the visit goes on to answer if and only if what stands there is broken, or a blank line with its body or a refused coding |
| CutIndependence.RestThatShows | src/request.c:228-291 | bytes that show behind a stall change the status returned or a slot |
| CutIndependence.DifferenceIsThere | src/request.c:228-291 | conversely a change has such bytes behind some more lines |
| CutIndependence.CutsMatterExactlyWhen | src/request.c:142-291 | for all bytes: some way of cutting them is answered otherwise than one visit if and only if a refused line is followed, at the end of some lines, by bytes that show |
| CutIndependence.CutThatShows | src/request.c:252-256 | the cut right behind these lines is such a way |
| CutIndependence.WholeRequestIgnoresCutsExactlyWhen | src/request.c:142-291 | for a whole request for a file that is there: no cut stalls if and only if all lines are accepted, and every cut is answered alike unless a line is refused and behind it there is one with a slot, or a coding was refused, or all of the body is there |
| CutIndependence.AcceptedIgnoresCuts | src/request.c:142-291 | with all lines accepted every cut ends the same way, the parser's own fields included |
| CutIndependence.OthersIgnoreCuts | src/request.c:170-202 | no complete or no valid line, a version not served, a path not set or a file not there: every cut ends the same way |
| RequestMachine.HeaderHandlerDict | src/request.c:72-79 | the table holds exactly the list of header handlers |
| RequestMachine.LiveRequest.constructor | src/request.c:83-98 | a new request |
| RequestMachine.LiveRequest.Reset | src/request.c:101-119 | whatever it was, the request is indistinguishable from a new one although the old bytes stay in the buffer |
| RequestMachine.LiveRequest.AssembleErr | src/request.c:452-473 | the error response in place, response_done set before a byte is sent |
| RequestMachine.LiveRequest.HandleRequestLine | src/request.c:168-222 | the handler over mutable state computes Request.HandleRequestLine |
| RequestMachine.LiveRequest.ScanPath | src/request.c:187-189 | the loop finds the first space or '?' from the path on |
| RequestMachine.LiveRequest.LowerInPlace | src/ssstr.c:18-23 | lowers the bytes of the slice and no others |
| RequestMachine.LiveRequest.CaseEqualInPlace | src/request.c:301-313 | the comparison loop over the buffer, with no regard to the length of the slice, decides as one on the slice does |
| RequestMachine.LiveRequest.OnHeader | src/request.c:243-256 | lowering, table lookup and callback in place |
| RequestMachine.LiveRequest.NextHeader | src/request.c:229-257 | one round of the header loop, which consumes bytes or ends it |
| RequestMachine.LiveRequest.HandleHeaders | src/request.c:224-262 | the loop computes Request.HandleHeaders, and ends |
| RequestMachine.LiveRequest.HandleBody | src/request.c:264-291 | the handler computes Request.HandleBody |
| RequestMachine.LiveRequest.RequestHandle | src/request.c:142-166 | receive and handler loop compute Request.RequestHandle |
| RequestMachine.LiveRequest.SendResponse | src/request.c:364-384 | the send loop computes Response.SendOb for every script of the socket |
| RequestMachine.LiveRequest.SendFileHandler | src/request.c:420-439 | the sendfile loop computes Response.HandleSendFile |
| RequestMachine.LiveRequest.ResponseHandle | src/request.c:386-401 | the loop over the two handlers, then reset or expiry |
| Response.VisitStopsAt | src/request.c:364-439 | the status of a visit is what the socket says to the first call it does not accept: AGAIN, or ERROR when it is broken; every call accepted sends something |
| Response.RespondConserves | src/request.c:386-439 | one visit, also of a response that was marked done before: what went out and what is left is what was to go; otherwise OK if and only if done, and done means nothing is left |
| Response.OutputIsConserved | src/request.c:364-439 | over any number of visits the wire is a prefix of output buffer and file, and all of it once response_done has been set on the way |
| Response.ErrorPageIsSentExactlyWhen | src/request.c:386-399 | a page marked done beforehand goes out whole if and only if the socket takes its bytes in the one visit; whole or not, the connection is given up, or, when a later header asked to keep it, starts afresh |
| Response.WillingSocketFinishes | src/request.c:364-439 | a socket that takes a byte at each call finishes the response in one visit |
| Response.AdvertisedLengthIsRight | src/request.c:203-219 | Content-Length (section 14.13 of RFC 2616; src/response.c:141-157) is the number of body bytes if and only if the size is below 2^31 or a multiple of 2^32, or, for a directory without index.html, its own size is a multiple of 2^32 |
| ConnectionRun.DriveKeepsMask | src/request.c:161-163 | through any handlers one direction stays armed, and output once no handler is left |
| ConnectionRun.DispatchKeepsMask | src/main.c:79-94 | after an event that does not fail exactly one of EPOLLIN and EPOLLOUT is armed, and armed input has a handler |
| ConnectionRun.ReadFailsExactlyWhen | src/request.c:120-146 | a readable event is ERROR if and only if the peer has closed or receiving failed, whatever has been received before |
| ConnectionRun.WriteFailsExactlyWhen | src/request.c:386-401 | a writable event is ERROR if and only if the socket breaks, or the response is done on a connection not to be kept |
| ConnectionRun.MaskInEveryRun | src/lotos_epoll.h:29-55 | so in every run of every connection |
| ConnectionRun.LifeInParts | src/main.c:76-94 | a life is that of its first events followed by that of the others from where they left it; nothing follows a close |
| ConnectionRun.KeepAliveStartsAfresh | src/request.c:392-398 | in a run: once a response has finished on keep-alive, the wire and the end are those so far followed by those of a new connection with the remaining events |
| Exchanges.ReadsAreFed | src/request.c:142-166 | the events that bring a request are the visits of Feed, as far as the mask admits them |
| Exchanges.WritesAreTransmitted | src/request.c:386-401 | the events that take a response are the visits of Transmit, and a finished one leaves the fresh request or a closed connection |
| Exchanges.OneExchange | src/main.c:76-94 | a good request on a fresh connection: the wire is a prefix of its answer, all of it if the socket lets it finish, and then the connection is fresh again or closed |
| Exchanges.AnswersGoOutInOrder | src/main.c:76-94 | any number of good requests one after another, each with files and date of its own: the wire is a prefix of their answers in order, and all of them if each can finish |
| Exchanges.EarlyBytesAreLost | src/request.c:101-119 | for any visits of the socket: bytes of a next request that come in the visit which completes the one before change nothing that is sent, and once the response has finished the connection is the one without them |
| HeapOrder.TreeInLevelOrder | src/connection.c:19-22 | the slots are a binary tree in level order, and parent and children are inverse |
| HeapOrder.SwapUp | src/connection.c:35-45 | a swap with a larger parent moves the one disorder up |
| HeapOrder.SwapDown | src/connection.c:48-73 | a swap with the smaller child moves the one disorder down |
| HeapOrder.RootIsLeast | src/connection.c:212 | the root is a smallest key |
| HeapOrder.RemovalIsRepairable | src/connection.c:172-178 | bubbling down repairs a removal if and only if it is at the root, at the end, or the last key is not below the parent of the slot |
| ConnectionHeap.Heap.Swap | src/connection.c:24-32 | swaps two slots and keeps the two-way index link |
| ConnectionHeap.Heap.BubbleUp | src/connection.c:35-45 | restores the order in k swaps with 2^k at most start + 1 |
| ConnectionHeap.Heap.ProperChild | src/connection.c:50-64 | the smaller of the children there are |
| ConnectionHeap.Heap.BubbleDown | src/connection.c:48-73 | restores the order in k swaps with (start + 1) * 2^k at most the size, and leaves a slot at rest alone |
| ConnectionHeap.Heap.Insert | src/connection.c:75-83 | fails only at capacity; a newest connection stays in the last slot |
| ConnectionHeap.Heap.Unregister | src/connection.c:172-178 | removes exactly this connection; the order is kept if and only if the removal is repairable |
| ConnectionHeap.Heap.SetReactivated | src/connection.c:228-231 | with a time that is not earlier, bubbling down alone keeps the heap |
| ConnectionHeap.Heap.SetExpired | src/connection.c:233-236 | time 0, bubbled up, keeps the heap |
| MemPool.Pool.constructor | src/mem_pool.c:10-44 | every block is free, in address order |
| MemPool.Pool.Alloc | src/mem_pool.c:53-64 | NULL if and only if every block is held; else the head of the free list, not held before |
| MemPool.Pool.Free | src/mem_pool.c:66-74 | the block leaves the held ones and heads the free list |
| MemPool.Pool.OwnerWrites | src/mem_pool.c:14-20 | a held block may be written over without harm to the list in the free ones |
| MemPool.WalkIsTheFreeList | src/mem_pool.c:24-42 | following the links from `next` meets the free list and stops: it is acyclic |
| MemPool.SpellingIsUnique | src/mem_pool.c:24-42 | memory determines the free list |
| Dict.ShiftsMultiply | src/dict.c:13-14 | the shifts are 65599 * h + c modulo 2^32 |
| Dict.CharIsTheByte | src/dict.c:9-17 | a char is the number of its eight bits in the range of the platform |
| Dict.BucketIsPolynomial | src/dict.c:9-19 | the bucket is the base-63 polynomial of the bytes modulo 256, whether char is signed or not |
| Dict.HashSdbm | src/dict.c:9-17 | the loop computes the hash, its top bit cleared |
| Dict.Cmp | src/ssstr.c:25-46 | 0 if and only if equal, -1 and 1 if and only if before and after in the order of the platform's char |
| Dict.BeforeIsAsymmetric | src/ssstr.c:25-46 | that order has no two-way pairs |
| Dict.ChainFindsLastPut | src/dict.c:34-50 | the first match in the bucket of the key is the last entry put under it |
| Dict.LookupIsTheLast | src/dict.c:34-50 | what is found under a key is its last entry, and nothing only when there is none |
| Dict.ChainsHoldAllPuts | src/dict.c:52-66 | the chains together hold as many nodes as there were puts |
| Dict.Dict.Put | src/dict.c:21-31 | one more entry, at the head of its bucket |
| Dict.Dict.Get | src/dict.c:34-50 | the most recent value under an equal key and whether there is one |
| Dict.Dict.Free | src/dict.c:52-66 | the count of nodes ends at 0 |
| Buffer.Buffer.constructor | src/buffer.c:9-19 | empty, terminated, with the room asked for |
| Buffer.Buffer.Clear | src/buffer.c:27-30 | no content, same capacity |
| Buffer.Buffer.Cat | src/buffer.c:41-68 | content is the concatenation, terminated; the same block if and only if the bytes fit |
| Buffer.GrowthIsAmortised | src/buffer.c:52-60 | below the limit all reallocations together move at most twice the bytes appended |
| Buffer.AdditiveIsRare | src/buffer.c:55-58 | reallocations on the additive branch number at most N / BUFFER_LIMIT |
| Server.MatchCounts | src/server.c:107 | connections and held blocks are equally many, and at most the pool |
| Server.Loop.HeapSizeIsAllocated | src/connection.c:165-170 | heap_size equals block_allocated, at most 1024, so registering never meets MAX_CONNECTION |
| Server.Loop.Unlink | src/connection.c:172-178 | from the root or the last slot: out of the heap in order, the block still held |
| Server.Loop.Discard | src/connection.c:180-192 | the block of an unregistered connection goes back to the pool |
| Server.Loop.Close | src/connection.c:195-208 | leaves heap and pool in order and in bijection without this connection |
| Server.Loop.Init | src/connection.c:105-124 | NULL if and only if no block or no buffers; a block is not leaked |
| Server.Loop.Register | src/connection.c:165-170 | never fails, and puts a connection with the present time into the last slot |
| Server.Loop.Accept | src/connection.c:126-163 | NULL leaves the connections as they were, also after a failed epoll add; else one fresh connection more |
| Server.Loop.RootIsOldest | src/connection.c:212-213 | the root is oldest and may be removed |
| Server.Loop.Prune | src/connection.c:210-222 | removes exactly the connections whose age reaches the timeout at its last reading of the clock |
| Server.Loop.AcceptAll | src/server.c:122-130 | accepting any number of peers adds as many fresh connections as have buffers and a place in epoll, up to the pool, and touches no other |
| Server.LivesOn | src/main.c:76-94 | one event more keeps the tie: what has happened to a connection is a possible life, its request and its wire are those of that life, and a failed handler ends it |
| Server.Loop.Handle | src/main.c:76-94 | one event: skipped if and only if too old at the reading of the clock, else handled, with its bytes on the wire, and marked expired if and only if the handler fails |
| Server.Loop.AnswersAreSent | src/main.c:53-99 | of any registered connection at any time: good requests among its events have been answered in order, whatever came after |
| Server.Loop.HandleAll | src/main.c:64-96 | through a batch no registered connection is freed, each event finds its connection as it was, a failed one stays failed, one that is not mentioned is not touched, and the new ones are fresh and counted |
| Server.Loop.Round | src/main.c:53-99 | a failed connection is closed in its own round, so is one whose peer is gone, one that did not fail and was young at the start stays; survivors are exactly the young ones, with the handler's result, the event and its bytes added to their life, and every invariant holds again |
| Examples.SmallRequest | src/http_parser.c:31-338 | a GET of "/" with one header, byte by byte, meets the requirements of AnsweredHoweverCut and ExchangeIsExact |
| Examples.ManyRequests | src/request.c:392-398 | any number of it on one connection meets those of AnswersGoOutInOrder, and the wire is as many answers |
| Examples.NotALine | src/request.c:173-175 | the one byte "?": 400 |
| Examples.VersionNotServed | src/request.c:180-182 | "GET / HTTP/2.0": 505 |
| Examples.NoSuchFile | src/request.c:199-202 | a GET of "/" without that file and with anything behind: 404 |
| Examples.NameWithHyphen | src/http_parser.c:257-261 | "User-Agent: x" is a header line |
| Examples.HostInAnyCase | src/request.c:243-256 | "HOST", "Host" and "host" fill the slot "host" |
| Examples.EarlyRequest | src/request.c:101-119 | that request and anything else in one visit: one answer, and a fresh connection |
| Examples.RefusedConnection | src/request.c:301-313 | "Connection: x" and a blank line behind a GET: a cut stalls and is answered otherwise than one visit |
| Examples.RefusedQuietly | src/request.c:301-313 | "Connection: x" and the beginning of a line behind a GET: a cut stalls, but every cut is answered alike |
| Examples.PageThrownAway | src/request.c:386-399 | "Connection: x" and then "Connection: keep-alive": on EAGAIN nothing of the page is sent and the connection is fresh |
| Examples.TabFaults | src/http_parser.c:81-88 | "GET /" TAB "HTTP/1.1": the handler follows NULL |
| Examples.BareLfParks | src/http_parser.c:308-310 | "a:b" LF behind a GET: AGAIN whatever comes |
| Examples.RemovalFromTheMiddle | src/connection.c:172-178 | seven keys from which a removal leaves the order broken |
| Examples.DirectoryWithoutIndex | src/request.c:206-219 | a directory of 4096 bytes is announced with them and served with none |

## Left out

- RequestMachine.LiveRequest.RequestHandle: asks that the received bytes fit the input buffer, because src/request.c:137 drops the pointer that a reallocation returns while raw positions are kept.
- EndToEnd.PipelineIgnoresCuts: a step of the proof, conditioned on the run itself; the condition on the bytes is that of CutIndependence.CutsMatterExactlyWhen.
- Response.OutputIsConserved: says of a response that is marked done beforehand only that its wire is a prefix; when it is all of it is ErrorPageIsSentExactlyWhen.
- RequestMeaning.RequestIsAnswered: one visit; for other cuts of a request with a refused line CutIndependence says when they are answered alike.
- Exchanges.AnswersGoOutInOrder: files and date stand still while one request is read; they may change between requests.
- Server.Loop.Round: assumes what the environment is taken to do: at most one event for each connection in a batch, the directions reported being armed, a clock that does not go back and is past the timeout at the start; an event with both directions needs both armed, which never happens.
- Server.Loop.Handle: runs the request handlers on the request as a value; that LiveRequest computes the same in place is proved separately.
- Server.Loop.Accept: the assertion on a NULL connection (src/connection.c:128) is compiled out, as the Makefile does.
- Dict.Dict.Get: compares keys by equality instead of calling ssstr_cmp; Cmp is proved to answer 0 on equal strings only. NULL keys are not modelled.
- MemPool.Pool.constructor: asks for at least one block, because the code writes into the first.
- Running many rounds is not a loop of its own: Loop.Valid holds after construction and is kept by every round.
- System calls are environment: received bytes, socket answers, epoll registration and the clock are adversarial, epoll_ctl on a registered descriptor succeeds, a file does not change while it is sent, and an index.html is a regular file.
- atoi of the text of a slice is a function given by the environment. C's atoi starts at the slice and skips CR LF as white space: for a Content-Length of nothing but vertical tabs or form feeds it would read on into the next line, which is not modelled.
- The text of a response head, its date included, the MIME table and the rendered error page are functions given by the environment at each event.
- A NULL pointer that is followed ends the model of that connection; what the process does then is not described.
- Growth of the output buffer while a response is assembled, and the int fields of a buffer beyond 2^31.
- Descriptors are not counted, so the leak of the file when a connection is closed in the middle of a response is not visible.
- The wrap of num_headers and of the body count, which takes more bytes than a buffer can hold.
- The build without the memory pool, the listening socket, the worker processes, signals, option parsing and logging.
