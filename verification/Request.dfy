// One request on a connection, as src/request.c handles it: the three-stage handler pipeline, its in-place writes to
// the input buffer, the header callbacks, the interest mask, and the two response handlers.
//
// What the program asks the system is in `World`: what openat finds under a name, `atoi`, the text of a response head
// and the error pages.  RequestMachine.dfy runs the same handlers as methods over mutable state.
module Request {
  import opened Common
  import opened ChunkIndependence
  import opened HttpParser

  datatype Ret = OK | AGAIN | ERROR | FAULT

  datatype Handler = OnRequestLine | OnHeaders | OnBody | NoHandler

  datatype ResHandler = SendBuffer | SendFile

  datatype TransferEncoding = TeIdentity | TeChunked | TeCompress | TeDeflate | TeGzip

  /** What opening a path finds.  The size of a directory is what fstat says of it; `index` is its index.html. */
  datatype File = Missing | Regular(content: string) | Directory(size: nat, index: Option<string>)

  /** What the text of a response head is made from. */
  datatype Head = Head(minor: nat, code: int, mime: string, length: int, keepAlive: bool, isError: bool)

  /**
   * One moment of the system.  The text of a head holds the date of it; `page` is the rendered error page for a code.
   */
  datatype World = World(open: string -> File, atoi: string -> int, render: Head -> string, page: int -> string)

  /**
   * The file to serve (None is a descriptor of -1), the size taken from fstat, and whether the type was set to html.
   */
  datatype Served = Served(resource: Option<string>, size: int, htmlMime: bool)

  /** The response under way: its handler, the output buffer and how much of buffer and file has been sent. */
  datatype Output = Output(resHandler: ResHandler, ob: string, bufferSent: nat, fileSent: nat)

  /** EPOLLIN and EPOLLOUT in the event mask of the connection. */
  datatype Interest = Interest(input: bool, output: bool)

  /** `request_t` with the fields of `parse_archive` that the handlers own and the interest mask of the connection. */
  datatype Request = Request(
    ib: string,
    ar: Archive,
    keepAlive: bool,
    transferEncoding: TransferEncoding,
    slots: map<string, Slice>,
    responseDone: bool,
    errReq: bool,
    file: Served,
    statusCode: int,
    handler: Handler,
    out: Output,
    ev: Interest)

  /** `request_init`, registered for input. */
  const FRESH: Request := Request(
    "", INIT, false, TeIdentity, map[], false, false, Served(None, 0, false), 200, OnRequestLine,
    Output(SendBuffer, "", 0, 0), Interest(true, false))

  /** `request_reset`; the interest mask belongs to the connection and is kept. */
  function Reset(r: Request): Request {
    FRESH.(ev := r.ev)
  }

  // ---------- pieces ----------

  /** The text of a slice; an unset slice has none. */
  function Text(b: string, s: Slice): string {
    if 0 <= s.str && 0 <= s.len && s.str + s.len <= |b| then b[s.str..s.str + s.len] else ""
  }

  function ToLower(c: char): char {
    if 'A' <= c <= 'Z' then c + ' ' else c
  }

  function LowerText(s: string): (t: string)
    ensures |t| == |s|
  {
    seq(|s|, i requires 0 <= i < |s| => ToLower(s[i]))
  }

  /** `ssstr_tolower` on a slice of the buffer. */
  function Lowered(b: string, s: Slice): (t: string)
    ensures |t| == |b|
  {
    seq(|b|, i requires 0 <= i < |b| => if s.str <= i < s.str + s.len then ToLower(b[i]) else b[i])
  }

  /** `ssstr_caseequal`: does the text begin with the literal, whatever the case? */
  predicate CaseEqual(text: string, literal: string) {
    |literal| <= |text| && LowerText(text[..|literal|]) == literal
  }

  /** A size stored into an `int`. */
  function Int32(n: nat): int {
    var m := n % 0x1_0000_0000;
    if m < 0x8000_0000 then m else m - 0x1_0000_0000
  }

  datatype Callback = Base | Connection | ContentLength | TransferCoding

  /** `hf_list` */
  const HF_LIST: seq<(string, Callback)> := [
    ("accept", Base), ("accept-charset", Base), ("accept-encoding", Base), ("accept-language", Base),
    ("cache-control", Base), ("content-length", ContentLength), ("connection", Connection), ("cookie", Base),
    ("date", Base), ("host", Base), ("if-modified-since", Base), ("if-unmodified-since", Base), ("max-forwards", Base),
    ("range", Base), ("referer", Base), ("transfer-encoding", TransferCoding), ("user-agent", Base)]

  /**
   * Nothing moves the parser but the parser: a handler keeps the archive, up to the announced length, and the bytes'
   * number.
   */
  predicate KeepsParser(r: Request, r': Request) {
    && |r'.ib| == |r.ib|
    && r'.ar == r.ar.(contentLength := r'.ar.contentLength)
  }

  // ---------- responses ----------

  function MimeText(r: Request): string {
    if r.file.htmlMime then "html" else Text(r.ib, r.ar.url.mime)
  }

  /** `response_assemble_err_buffer` */
  function ErrResponse(w: World, r: Request, code: int): (r': Request)
    ensures KeepsParser(r, r') && r'.handler == NoHandler
  {
    var head := w.render(Head(r.ar.version.minor, code, "html", |w.page(code)|, false, true));
    r.(handler := NoHandler, errReq := true, statusCode := code, keepAlive := false,
    out := r.out.(ob := r.out.ob + (head + w.page(code))),
    ev := Interest(false, true), responseDone := true)
  }

  /** What the head of an answer is made from.  After an error it speaks of the error page, although none follows. */
  function HeadFor(w: World, r: Request): Head {
    if r.errReq then Head(r.ar.version.minor, r.statusCode, "html", |w.page(r.statusCode)|, r.keepAlive, true)
    else Head(r.ar.version.minor, r.statusCode, MimeText(r), r.file.size, r.keepAlive, false)
  }

  /** `response_assemble_buffer` */
  function Assemble(w: World, r: Request): Request {
    r.(out := r.out.(ob := r.out.ob + w.render(HeadFor(w, r))))
  }

  // ---------- request_handle_request_line ----------

  /** Where the scan for the end of the path stops, or None when it would leave the buffer: then the pointer is wild. */
  function PathEnd(b: string, path: Slice): (r: Option<nat>)
    ensures r.Some? ==> 0 <= path.str <= r.value < |b|
  {
    if 0 <= path.str < |b| && FindEither(b, path.str, |b|, ' ', '?') < |b|
    then Some(FindEither(b, path.str, |b|, ' ', '?')) else None
  }

  /** The C string at p. */
  function CString(b: string, p: nat): string
    requires p <= |b|
  {
    b[p..FindEither(b, p, |b|, '\0', '\0')]
  }

  function RelativePath(b: string, path: Slice): string
    requires 0 <= path.str < |b|
  {
    if path.len == 1 && b[path.str] == '/' then "./" else CString(b, path.str + 1)
  }

  function WithFile(w: World, r: Request, f: File): (r': Request)
    ensures KeepsParser(r, r') && (r'.handler == OnHeaders || r'.handler == NoHandler)
  {
    match f
    case Missing => ErrResponse(w, r, 404)
    case Regular(content) => r.(file := Served(Some(content), Int32(|content|), false), handler := OnHeaders)
    case Directory(size, None) => r.(file := Served(None, Int32(size), true), handler := OnHeaders)
    case Directory(_, Some(content)) => r.(file := Served(Some(content), Int32(|content|), true), handler := OnHeaders)
  }

  /** The handler after the parser has answered OK. */
  function AfterRequestLine(w: World, r: Request): (res: (Ret, Request))
    ensures res.0 == FAULT || (res.0 == OK && (res.1.handler == OnHeaders || res.1.handler == NoHandler))
    ensures KeepsParser(r, res.1)
  {
    if r.ar.version.major > 1 || r.ar.version.minor > 1 then (OK, ErrResponse(w, r, 505))
    else
      var r1 := r.(keepAlive := r.ar.version == Version(1, 1));
      var end := PathEnd(r1.ib, r1.ar.url.absPath);
      if end.None? then (FAULT, r1)
      else
        var r2 := r1.(ib := r1.ib[end.value := '\0']);
        (OK, WithFile(w, r2, w.open(RelativePath(r2.ib, r2.ar.url.absPath))))
  }

  function HandleRequestLine(w: World, r: Request): (res: (Ret, Request))
    requires Ready(r.ib, r.ar)
    ensures res.0 == OK ==> res.1.handler == OnHeaders || res.1.handler == NoHandler
    ensures res.0 == AGAIN ==> res.1 == r.(ar := Parse(RequestLine, r.ib, r.ar).ar)
    ensures res.0 != FAULT && res.1.handler != NoHandler ==> Ready(res.1.ib, res.1.ar)
    ensures res.0 != ERROR && |res.1.ib| == |r.ib|
  {
    var p := Parse(RequestLine, r.ib, r.ar);
    var r1 := r.(ar := p.ar);
    if p.status == Again then (AGAIN, r1)
    else if p.status != Ok then (OK, ErrResponse(w, r1, 400))
    else AfterRequestLine(w, r1)
  }

  // ---------- request_handle_headers ----------

  function WithConnection(w: World, r: Request, text: string): (r': Request)
    ensures KeepsParser(r, r') && (r'.handler == r.handler || r'.handler == NoHandler)
  {
    if CaseEqual(text, "keep-alive") then r.(keepAlive := true)
    else if CaseEqual(text, "close") then r.(keepAlive := false)
    else ErrResponse(w, r, 400)
  }

  function WithContentLength(w: World, r: Request, text: string): (r': Request)
    ensures KeepsParser(r, r') && (r'.handler == r.handler || r'.handler == NoHandler)
  {
    var n := w.atoi(text);
    if n <= 0 then ErrResponse(w, r, 400) else r.(ar := r.ar.(contentLength := n))
  }

  function Coding(text: string): Option<TransferEncoding> {
    if CaseEqual(text, "chunked") then Some(TeChunked)
    else if CaseEqual(text, "compress") then Some(TeCompress)
    else if CaseEqual(text, "deflate") then Some(TeDeflate)
    else if CaseEqual(text, "gzip") then Some(TeGzip)
    else if CaseEqual(text, "identity") then Some(TeIdentity)
    else None
  }

  /** Every coding is refused, identity included. */
  function WithTransferEncoding(w: World, r: Request, text: string): (r': Request)
    ensures KeepsParser(r, r') && (r'.handler == r.handler || r'.handler == NoHandler)
  {
    match Coding(text)
    case Some(te) => ErrResponse(w, r.(transferEncoding := te), 501)
    case None => ErrResponse(w, r, 400)
  }

  /** What the header loop does with a complete header: lower its name in place, look it up, call back. */
  function OnHeader(w: World, r: Request): (r': Request)
    ensures KeepsParser(r, r') && (r'.handler == r.handler || r'.handler == NoHandler)
  {
    var r1 := r.(ib := Lowered(r.ib, r.ar.headerName));
    var name := Text(r1.ib, r1.ar.headerName);
    match Lookup(HF_LIST, name)
    case None => r1
    case Some(callback) =>
      var r2 := r1.(slots := r1.slots[name := r1.ar.headerValue]);
      var text := Text(r2.ib, r2.ar.headerValue);
      match callback
      case Base => r2
      case Connection => WithConnection(w, r2, text)
      case ContentLength => WithContentLength(w, r2, text)
      case TransferCoding => WithTransferEncoding(w, r2, text)
  }

  /** `request_handle_headers`.  A callback that assembled an error returned OK, so the loop goes on after it. */
  function HandleHeaders(w: World, r: Request): (res: (Ret, Request))
    requires Ready(r.ib, r.ar)
    ensures res.0 == OK ==> res.1.handler == OnBody || res.1.handler == NoHandler
    ensures res.0 == AGAIN ==> res.1.handler == r.handler || res.1.handler == NoHandler
    ensures res.0 == AGAIN ==> Ready(res.1.ib, res.1.ar) && res.1.ar.nextParsePos == |res.1.ib|
    ensures res.1.handler != NoHandler ==> Ready(res.1.ib, res.1.ar)
    ensures (res.0 == OK || res.0 == AGAIN) && |res.1.ib| == |r.ib|
    decreases |r.ib| - r.ar.nextParsePos
  {
    var p := Parse(HeaderLine, r.ib, r.ar);
    var r1 := r.(ar := p.ar);
    match p.status
    case Again => (AGAIN, r1)
    case InvalidRequest => (OK, ErrResponse(w, r1, 400))
    case CrlfLine => (OK, r1.(handler := OnBody))
    case Ok => HandleHeaders(w, OnHeader(w, r1))
  }

  // ---------- request_handle_body ----------

  function HandleBody(w: World, r: Request): (res: (Ret, Request))
    requires Ready(r.ib, r.ar)
    ensures res.0 == OK ==> res.1.handler == NoHandler
    ensures res.0 == OK || (res.0 == AGAIN && res.1.handler == r.handler && Ready(res.1.ib, res.1.ar))
    ensures |res.1.ib| == |r.ib|
  {
    if r.transferEncoding != TeIdentity then (OK, ErrResponse(w, r, 501))
    else
      var p := ParseBody(r.ib, r.ar);
      var r1 := r.(ar := p.ar);
      if p.status == Again then (AGAIN, r1)
      else (OK, Assemble(w, r1.(ev := Interest(false, true), handler := NoHandler)))
  }

  // ---------- request_handle ----------

  function Rank(h: Handler): nat {
    match h case OnRequestLine => 3 case OnHeaders => 2 case OnBody => 1 case NoHandler => 0
  }

  /** `r->req_handler(r)` */
  function Call(w: World, r: Request): (res: (Ret, Request))
    requires Ready(r.ib, r.ar) && r.handler != NoHandler
    ensures res.0 != ERROR && |res.1.ib| == |r.ib|
    ensures res.0 == OK ==> Rank(res.1.handler) < Rank(r.handler)
    ensures res.0 == AGAIN ==> res.1.handler == r.handler || res.1.handler == NoHandler
    ensures res.0 != FAULT && res.1.handler != NoHandler ==> Ready(res.1.ib, res.1.ar)
  {
    match r.handler
    case OnRequestLine => HandleRequestLine(w, r)
    case OnHeaders => HandleHeaders(w, r)
    case OnBody => HandleBody(w, r)
  }

  /** The loop of `request_handle`: call handlers while they answer OK and there is one. */
  function Drive(w: World, r: Request): (res: (Ret, Request))
    requires Ready(r.ib, r.ar) && r.handler != NoHandler
    ensures res.0 != ERROR && |res.1.ib| == |r.ib|
    ensures res.0 == OK ==> res.1.handler == NoHandler
    ensures res.0 == AGAIN && res.1.handler != NoHandler ==> Ready(res.1.ib, res.1.ar)
    decreases Rank(r.handler)
  {
    var (ret, r1) := Call(w, r);
    if ret == OK && r1.handler != NoHandler then Drive(w, r1) else (ret, r1)
  }

  /** How `request_recv` stopped: the peer closed, an error, or nothing more to read now. */
  datatype RecvEnd = Eof | Failed | WouldBlock

  /** `request_handle` when `bytes` arrive. */
  function RequestHandle(w: World, r: Request, bytes: string, end: RecvEnd): (Ret, Request)
    requires Ready(r.ib, r.ar) && r.handler != NoHandler
  {
    var r1 := r.(ib := r.ib + bytes);
    if end != WouldBlock then (ERROR, r1) else Drive(w, r1)
  }

  // ---------- strncasecmp on the buffer ----------

  /** What `ssstr_caseequal` really compares: the bytes of the buffer from p on, whatever the length of the slice. */
  predicate CaseEqualAt(b: string, p: nat, literal: string)
    decreases |literal|
  {
    literal == "" || (p < |b| && ToLower(b[p]) == literal[0] && CaseEqualAt(b, p + 1, literal[1..]))
  }

  /** The byte behind the slice is a CR. */
  predicate EndsInCr(b: string, s: Slice) {
    0 <= s.str && 0 <= s.len && s.str + s.len < |b| && b[s.str + s.len] == '\r'
  }

  /** The CR behind a header value stops the comparison, so it never depends on bytes behind the slice. */
  lemma {:induction false} CaseEqualStaysInSlice(b: string, s: Slice, literal: string)
    requires EndsInCr(b, s) && '\r' !in literal
    ensures CaseEqualAt(b, s.str, literal) <==> CaseEqual(Text(b, s), literal)
    decreases |literal|
  {
    assert ToLower('\r') == '\r';
    hide ToLower;
    var text := Text(b, s);
    if literal == "" {
      assert LowerText(text[..0]) == "";
    } else if s.len == 0 {
      assert literal[0] in literal;
    } else {
      var tail := Slice(s.str + 1, s.len - 1);
      assert forall c | c in literal[1..] :: c in literal;
      CaseEqualStaysInSlice(b, tail, literal[1..]);
      assert Text(b, tail) == text[1..];
      if |literal| <= |text| {
        var x, y := LowerText(text[..|literal|]), LowerText(text[1..][..|literal| - 1]);
        assert x == [ToLower(text[0])] + y;
        assert x == literal <==> x[0] == literal[0] && x[1..] == literal[1..];
      }
    }
  }

  /** Between the CR and the LF of a header the parser stands right behind the CR that ends the value. */
  predicate CrHeld(b: string, ar: Archive) {
    ar.state == HdCrAfterVal && !ar.isCrlfLine ==> 0 <= ar.headerValEnd < |b| && b[ar.headerValEnd] == '\r'
  }

  lemma HeaderStepKeepsCr(b: string, p: nat, ar: Archive)
    requires p < |b| && WellFormed(p, ar) && CrHeld(b, ar)
    ensures CrHeld(b, HeaderLineStep(p, b[p], ar).ar)
    ensures HeaderLineStep(p, b[p], ar).verdict == Complete
            ==> HeaderLineStep(p, b[p], ar).ar == ar && ar.state == HdCrAfterVal
  {
  }

  lemma LineStepKeepsCr(b: string, p: nat, ar: Archive)
    requires p < |b| && WellFormed(p, ar) && CrHeld(b, ar)
    ensures CrHeld(b, RequestLineStep(b[..p + 1], ar).ar)
  {
    hide ParseMethod, SplitUrl, PushDigit, WellFormed;
  }

  lemma StepKeepsCr(m: Machine, b: string, p: nat, ar: Archive)
    requires p < |b| && WellFormed(p, ar) && CrHeld(b, ar)
    ensures var s := Step(m, b[..p + 1], ar);
            && CrHeld(b, s.ar)
            && (m == HeaderLine && s.verdict == Complete ==> s.ar == ar && ar.state == HdCrAfterVal)
  {
    assert b[..p + 1][p] == b[p];
    HeaderStepKeepsCr(b, p, ar);
    LineStepKeepsCr(b, p, ar);
    hide WellFormed, HeaderLineStep, RequestLineStep, CrHeld;
  }

  lemma FinishedInCr(b: string, p: nat, ar: Archive)
    requires p < |b| && WellFormed(p, ar) && CrHeld(b, ar) && ar.state == HdCrAfterVal
    ensures Finish(HeaderLine, p, ar).status == Ok ==> EndsInCr(b, Finish(HeaderLine, p, ar).ar.headerValue)
  {
  }

  /** A header that is complete has a value that ends in CR, wherever the parser was resumed. */
  lemma {:induction false} RunKeepsCr(m: Machine, b: string, p: nat, ar: Archive)
    requires p <= |b| && WellFormed(p, ar) && CrHeld(b, ar)
    ensures var r := Run(m, b, p, ar);
            && CrHeld(b, r.ar)
            && (m == HeaderLine && r.status == Ok ==> EndsInCr(b, r.ar.headerValue))
    decreases |b| - p
  {
    hide WellFormed, Step, Run, EndsInCr;
    if p == |b| {
      NoMoreBytes(m, b, ar);
    } else {
      OneRound(m, b, p, ar);
      StepKeepsCr(m, b, p, ar);
      var s := Step(m, b[..p + 1], ar);
      if s.verdict == More {
        RunKeepsCr(m, b, p + 1, s.ar);
      } else if s.verdict == Complete && m == HeaderLine {
        FinishedInCr(b, p, ar);
      }
    }
  }
}
