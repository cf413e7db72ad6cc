// The parser of src/http_parser.c as functions over one byte at a time.
//
// A `char *` into the input buffer is an index; NULL is -1.  The two resumable parsers are folds of
// a step function over the unread bytes.  The class in ParserMachine.dfy runs the same machines as
// loops over mutable fields and is proved to compute exactly these functions.
module HttpParser {

  const NULL: int := -1

  /** `ssstr_t`: a slice of the buffer. */
  datatype Slice = Slice(str: int, len: int)

  /** What `memset` leaves in a slice. */
  const NO_SLICE: Slice := Slice(NULL, 0)

  datatype HttpMethod = DELETE | GET | HEAD | POST | PUT | INVALID

  datatype State =
    | RlBegin | RlMethod | RlSpBeforeUrl | RlUrl | RlSpBeforeVersion
    | RlVersionH | RlVersionHT | RlVersionHTT | RlVersionHTTP | RlVersionSlash
    | RlVersionMajor | RlVersionDot | RlVersionMinor | RlCrAfterVersion
    | HdBegin | HdName | HdColon | HdSpBeforeVal | HdVal | HdCrAfterVal | HdLfAfterVal

  /** `http_version`: two 16-bit numbers. */
  datatype Version = Version(major: nat, minor: nat)

  /** `req_url` */
  datatype ReqUrl = ReqUrl(absPath: Slice, query: Slice, mime: Slice)

  const NO_URL: ReqUrl := ReqUrl(NO_SLICE, NO_SLICE, NO_SLICE)

  /** The fields of `parse_archive` that the parsers own. */
  datatype Archive = Archive(
    httpMethod: HttpMethod,
    version: Version,
    requestUrl: Slice,
    url: ReqUrl,
    contentLength: int,
    numHeaders: nat,
    headerName: Slice,
    headerValue: Slice,
    nextParsePos: int,
    state: State,
    methodBegin: int,
    urlBegin: int,
    headerLineBegin: int,
    headerColonPos: int,
    headerValBegin: int,
    headerValEnd: int,
    bodyReceived: nat,
    isCrlfLine: bool)

  /** `parse_archive_init`: all zero, the parse position at the start of the buffer. */
  const INIT: Archive := Archive(
    DELETE, Version(0, 0), NO_SLICE, NO_URL, -1, 0, NO_SLICE, NO_SLICE,
    0, RlBegin, NULL, NULL, NULL, NULL, NULL, NULL, 0, true)

  datatype Status = Ok | Again | InvalidRequest | CrlfLine

  /** What one byte does to the machine: go on, a line is complete, or the request is invalid. */
  datatype Verdict = More | Complete | Reject

  datatype Stepped = Stepped(ar: Archive, verdict: Verdict)

  datatype Parsed = Parsed(status: Status, ar: Archive)

  // ---------- character classes ----------

  predicate IsAlpha(c: char) { 'a' <= c <= 'z' || 'A' <= c <= 'Z' }

  predicate IsDigit(c: char) { '0' <= c <= '9' }

  predicate IsBlank(c: char) { c == ' ' || c == '\t' }

  predicate IsEol(c: char) { c == '\r' || c == '\n' }

  predicate IsNameChar(c: char) { IsAlpha(c) || IsDigit(c) || c == '-' }

  function Digit(c: char): nat
    requires IsDigit(c)
  {
    c as int - '0' as int
  }

  /** `x * 10 + ch - '0'` stored back into an `unsigned short`. */
  function PushDigit(x: nat, c: char): nat
    requires IsDigit(c)
  {
    (x * 10 + Digit(c)) % 0x1_0000
  }

  // ---------- parse_method ----------

  function ParseMethod(s: string): HttpMethod {
    if s == "GET" then GET
    else if s == "PUT" then PUT
    else if s == "POST" then POST
    else if s == "HEAD" then HEAD
    else if s == "DELETE" then DELETE
    else INVALID
  }

  // ---------- parse_url ----------

  /** The first index in [lo, hi) holding `c` or `d`, or hi. */
  function FindEither(b: string, lo: nat, hi: nat, c: char, d: char): (r: nat)
    requires lo <= hi <= |b|
    ensures lo <= r <= hi
    ensures forall i | lo <= i < r :: b[i] != c && b[i] != d
    ensures r < hi ==> b[r] == c || b[r] == d
    decreases hi - lo
  {
    if lo == hi || b[lo] == c || b[lo] == d then lo else FindEither(b, lo + 1, hi, c, d)
  }

  /** The last index in (lo, hi] holding '.' or '/', or lo. */
  function LastMark(b: string, lo: nat, hi: nat): (r: nat)
    requires lo <= hi < |b|
    ensures lo <= r <= hi
    ensures forall i | r < i <= hi :: b[i] != '.' && b[i] != '/'
    ensures r > lo ==> b[r] == '.' || b[r] == '/'
  {
    if lo == hi || b[hi] == '.' || b[hi] == '/' then hi else LastMark(b, lo, hi - 1)
  }

  /** The scan back from the end of the path for the extension. */
  function WithExtension(b: string, u: ReqUrl): (r: ReqUrl)
    requires 0 <= u.absPath.str && 0 <= u.absPath.len && u.absPath.str + u.absPath.len < |b|
    ensures r.absPath == u.absPath && r.query == u.query
    ensures b[u.absPath.str + u.absPath.len] != '.' ==>
              r.mime == u.mime || Inside(u.absPath.str + u.absPath.len, r.mime)
  {
    var end := u.absPath.str + u.absPath.len;
    var mark := LastMark(b, u.absPath.str, end);
    if mark > u.absPath.str && b[mark] == '.' then u.(mime := Slice(mark + 1, end - mark - 1)) else u
  }

  /** `parse_url` on a URL that starts with '/'; b[end] is the byte that ended the URL. */
  function SplitUrl(b: string, begin: nat, end: nat): (r: ReqUrl)
    requires begin < end < |b|
    ensures UrlInside(|b|, r)
  {
    var cut := FindEither(b, begin + 1, end + 1, ' ', '?');
    if cut == end + 1 then NO_URL
    else
      var path := Slice(begin, cut - begin);
      if b[cut] == ' ' then WithExtension(b, ReqUrl(path, Slice(cut, 0), NO_SLICE))
      else
        var stop := FindEither(b, cut + 1, end + 1, ' ', ' ');
        var query := if stop == end + 1 then NO_SLICE else Slice(cut + 1, stop - cut - 1);
        WithExtension(b, ReqUrl(path, query, NO_SLICE))
  }

  // ---------- the two machines ----------

  datatype Machine = RequestLine | HeaderLine

  predicate Inside(pos: int, s: Slice) {
    s == NO_SLICE || (0 <= s.str && 0 <= s.len && s.str + s.len <= pos)
  }

  /** The slices of a URL point into the first `pos` bytes; a path that is set is not empty. */
  predicate UrlInside(pos: int, u: ReqUrl) {
    && (u.absPath == NO_SLICE || (0 <= u.absPath.str && 0 < u.absPath.len && u.absPath.str + u.absPath.len < pos))
    && Inside(pos, u.query)
    && Inside(pos, u.mime)
  }

  /** No header line is open: this is what the two assertions of HEADER_SET need. */
  predicate NoOpenLine(ar: Archive) {
    ar.headerLineBegin <= ar.headerColonPos && ar.headerValBegin <= ar.headerValEnd
  }

  predicate NameRead(pos: int, ar: Archive) {
    !ar.isCrlfLine && 0 <= ar.headerLineBegin <= ar.headerColonPos < pos
  }

  /** The stored positions point into what has been read.  `pos` is the number of bytes read. */
  predicate WellFormed(pos: int, ar: Archive) {
    0 <= pos &&
    match ar.state
    case RlBegin => NoOpenLine(ar) && ar.url == NO_URL
    case RlMethod => NoOpenLine(ar) && ar.url == NO_URL && 0 <= ar.methodBegin < pos
    case RlSpBeforeUrl => NoOpenLine(ar) && ar.url == NO_URL
    case RlUrl => NoOpenLine(ar) && ar.url == NO_URL && 0 <= ar.urlBegin < pos
    case HdName => !ar.isCrlfLine && 0 <= ar.headerLineBegin < pos && ar.headerValBegin <= ar.headerValEnd
    case HdColon => NameRead(pos, ar) && ar.headerValBegin <= ar.headerValEnd
    case HdSpBeforeVal => NameRead(pos, ar) && ar.headerValBegin <= ar.headerValEnd
    case HdVal => NameRead(pos, ar) && 0 <= ar.headerValBegin < pos
    case HdCrAfterVal => NoOpenLine(ar)
      && (ar.isCrlfLine || (NameRead(pos, ar) && 0 <= ar.headerValBegin && ar.headerValEnd < pos))
    case HdLfAfterVal => true
    case _ => NoOpenLine(ar)
  }

  function MethodStep(seen: string, ar: Archive): Stepped
    requires |seen| > 0 && WellFormed(|seen| - 1, ar)
  {
    var p := |seen| - 1;
    var ch := seen[p];
    match ar.state
    case RlBegin =>
      if IsAlpha(ch) then Stepped(ar.(methodBegin := p, state := RlMethod), More) else Stepped(ar, Reject)
    case RlMethod =>
      if IsAlpha(ch) then Stepped(ar, More)
      else if ch == ' ' then
        var a := ar.(httpMethod := ParseMethod(seen[ar.methodBegin..p]));
        if a.httpMethod == INVALID then Stepped(a, Reject) else Stepped(a.(state := RlSpBeforeUrl), More)
      else Stepped(ar, Reject)
    case _ =>
      if IsBlank(ch) then Stepped(ar, More)
      else if IsEol(ch) then Stepped(ar, Reject)
      else Stepped(ar.(state := RlUrl, urlBegin := p), More)
  }

  function UrlStep(seen: string, ar: Archive): Stepped
    requires |seen| > 0 && WellFormed(|seen| - 1, ar) && ar.state == RlUrl
  {
    var p := |seen| - 1;
    var ch := seen[p];
    if IsBlank(ch) then
      var a := ar.(state := RlSpBeforeVersion, requestUrl := Slice(ar.urlBegin, p - ar.urlBegin));
      if seen[ar.urlBegin] != '/' then Stepped(a, Reject)
      else Stepped(a.(url := SplitUrl(seen, ar.urlBegin, p)), More)
    else if IsEol(ch) then Stepped(ar, Reject)
    else Stepped(ar, More)
  }

  function ProtocolStep(ch: char, ar: Archive): Stepped {
    match ar.state
    case RlSpBeforeVersion =>
      if IsBlank(ch) then Stepped(ar, More)
      else if ch == 'H' || ch == 'h' then Stepped(ar.(state := RlVersionH), More)
      else Stepped(ar, Reject)
    case RlVersionH =>
      if ch == 'T' || ch == 't' then Stepped(ar.(state := RlVersionHT), More) else Stepped(ar, Reject)
    case RlVersionHT =>
      if ch == 'T' || ch == 't' then Stepped(ar.(state := RlVersionHTT), More) else Stepped(ar, Reject)
    case RlVersionHTT =>
      if ch == 'P' || ch == 'p' then Stepped(ar.(state := RlVersionHTTP), More) else Stepped(ar, Reject)
    case _ =>
      if ch == '/' then Stepped(ar.(state := RlVersionSlash), More) else Stepped(ar, Reject)
  }

  function VersionStep(ch: char, ar: Archive): Stepped {
    match ar.state
    case RlVersionSlash =>
      if IsDigit(ch) then
        Stepped(ar.(version := Version(PushDigit(ar.version.major, ch), ar.version.minor), state := RlVersionMajor),
          More)
      else Stepped(ar, Reject)
    case RlVersionMajor =>
      if IsDigit(ch) then
        var a := ar.(version := Version(PushDigit(ar.version.major, ch), ar.version.minor));
        Stepped(a, if a.version.major > 1 then Reject else More)
      else if ch == '.' then Stepped(ar.(state := RlVersionDot), More)
      else Stepped(ar, Reject)
    case RlVersionDot =>
      if IsDigit(ch) then
        Stepped(ar.(version := Version(ar.version.major, PushDigit(ar.version.minor, ch)), state := RlVersionMinor),
          More)
      else Stepped(ar, Reject)
    case RlVersionMinor =>
      if IsDigit(ch) then
        var a := ar.(version := Version(ar.version.major, PushDigit(ar.version.minor, ch)));
        Stepped(a, if a.version.minor > 1 then Reject else More)
      else if ch == '\r' then Stepped(ar.(state := RlCrAfterVersion), More)
      else Stepped(ar, Reject)
    case _ =>
      if ch == '\n' then Stepped(ar, Complete) else Stepped(ar, Reject)
  }

  predicate InMethod(st: State) { st.RlBegin? || st.RlMethod? || st.RlSpBeforeUrl? }

  predicate InProtocol(st: State) {
    st.RlSpBeforeVersion? || st.RlVersionH? || st.RlVersionHT? || st.RlVersionHTT? || st.RlVersionHTTP?
  }

  predicate InVersion(st: State) {
    st.RlVersionSlash? || st.RlVersionMajor? || st.RlVersionDot? || st.RlVersionMinor? || st.RlCrAfterVersion?
  }

  /** One round of the loop of `parse_request_line`; `seen` ends with the current byte. */
  function RequestLineStep(seen: string, ar: Archive): (r: Stepped)
    requires |seen| > 0 && WellFormed(|seen| - 1, ar)
    ensures r.verdict == More ==> WellFormed(|seen|, r.ar)
    ensures r.verdict == Complete ==> NoOpenLine(r.ar)
    ensures r.ar.nextParsePos == ar.nextParsePos
  {
    if InMethod(ar.state) then MethodStep(seen, ar)
    else if ar.state == RlUrl then UrlStep(seen, ar)
    else if InProtocol(ar.state) then ProtocolStep(seen[|seen| - 1], ar)
    else if InVersion(ar.state) then VersionStep(seen[|seen| - 1], ar)
    else Stepped(ar, More)
  }

  /** One round of the loop of `parse_header_line`.  It looks at the current byte only. */
  function HeaderLineStep(p: nat, ch: char, ar: Archive): (r: Stepped)
    requires WellFormed(p, ar)
    ensures r.verdict == More ==> WellFormed(p + 1, r.ar)
    ensures r.verdict == Complete ==> NoOpenLine(r.ar)
                                      && (|| r.ar.isCrlfLine
                                          || (NameRead(p, r.ar) && 0 <= r.ar.headerValBegin && r.ar.headerValEnd < p))
    ensures r.ar.nextParsePos == ar.nextParsePos
  {
    match ar.state
    case HdBegin =>
      if IsNameChar(ch) then Stepped(ar.(state := HdName, headerLineBegin := p, isCrlfLine := false), More)
      else if ch == '\r' then Stepped(ar.(state := HdCrAfterVal, isCrlfLine := true), More)
      else if IsBlank(ch) then Stepped(ar, More)
      else Stepped(ar, Reject)
    case HdName =>
      if IsNameChar(ch) then Stepped(ar, More)
      else if ch == ':' then Stepped(ar.(state := HdColon, headerColonPos := p), More)
      else Stepped(ar, Reject)
    case HdColon =>
      if IsBlank(ch) then Stepped(ar.(state := HdSpBeforeVal), More)
      else if IsEol(ch) then Stepped(ar, Reject)
      else Stepped(ar.(state := HdVal, headerValBegin := p), More)
    case HdSpBeforeVal =>
      if IsBlank(ch) then Stepped(ar, More)
      else if IsEol(ch) then Stepped(ar, Reject)
      else Stepped(ar.(state := HdVal, headerValBegin := p), More)
    case HdVal =>
      if ch == '\r' then Stepped(ar.(headerValEnd := p, state := HdCrAfterVal), More)
      else if ch == '\n' then Stepped(ar.(state := HdLfAfterVal), More)
      else Stepped(ar, More)
    case HdCrAfterVal =>
      if ch == '\n' then Stepped(ar, Complete) else Stepped(ar, Reject)
    case _ => Stepped(ar, More)
  }

  function Step(m: Machine, seen: string, ar: Archive): (r: Stepped)
    requires |seen| > 0 && WellFormed(|seen| - 1, ar)
    ensures r.verdict == More ==> WellFormed(|seen|, r.ar)
    ensures r.verdict == Complete ==> NoOpenLine(r.ar)
    ensures r.verdict == Complete && m == HeaderLine ==>
              || r.ar.isCrlfLine
              || (NameRead(|seen| - 1, r.ar) && 0 <= r.ar.headerValBegin && r.ar.headerValEnd < |seen| - 1)
    ensures m == HeaderLine ==> r.ar.url == ar.url
    ensures r.ar.nextParsePos == ar.nextParsePos
  {
    match m
    case RequestLine => RequestLineStep(seen, ar)
    case HeaderLine => HeaderLineStep(|seen| - 1, seen[|seen| - 1], ar)
  }

  /** The code after the label `done` of either parser; p is the last byte of the line. */
  function Finish(m: Machine, p: nat, ar: Archive): Parsed {
    var a := ar.(nextParsePos := p + 1, state := HdBegin);
    match m
    case RequestLine => Parsed(Ok, a)
    case HeaderLine =>
      Parsed(if ar.isCrlfLine then CrlfLine else Ok,
             a.(numHeaders := ar.numHeaders + 1,
             headerName := Slice(ar.headerLineBegin, ar.headerColonPos - ar.headerLineBegin),
             headerValue := Slice(ar.headerValBegin, ar.headerValEnd - ar.headerValBegin)))
  }

  /**
   * The parser loop from byte p of the buffer content b.  A complete line moves the parse position on, past everything
   * that was read; the slices it delivers end before it.
   */
  function Run(m: Machine, b: string, p: nat, ar: Archive): (r: Parsed)
    requires p <= |b| && WellFormed(p, ar)
    ensures r.status == Again ==> r.ar.nextParsePos == |b| && WellFormed(|b|, r.ar)
    ensures r.status == Ok || r.status == CrlfLine ==>
              p < r.ar.nextParsePos <= |b| && r.ar.state == HdBegin && WellFormed(r.ar.nextParsePos, r.ar)
    ensures r.status == InvalidRequest ==> r.ar.nextParsePos == ar.nextParsePos
    ensures m == HeaderLine ==> r.ar.url == ar.url
    ensures r.status == Ok && m == HeaderLine ==>
              Inside(r.ar.nextParsePos - 1, r.ar.headerName) && Inside(r.ar.nextParsePos - 1, r.ar.headerValue)
    decreases |b| - p
  {
    if p == |b| then Parsed(Again, ar.(nextParsePos := p))
    else
      var s := Step(m, b[..p + 1], ar);
      match s.verdict
      case More => Run(m, b, p + 1, s.ar)
      case Complete => Finish(m, p, s.ar)
      case Reject => Parsed(InvalidRequest, s.ar)
  }

  /** The stored parse position is where the machine stopped reading. */
  predicate Ready(b: string, ar: Archive) {
    0 <= ar.nextParsePos <= |b| && WellFormed(ar.nextParsePos, ar)
  }

  /** `parse_request_line` and `parse_header_line`. */
  function Parse(m: Machine, b: string, ar: Archive): Parsed
    requires Ready(b, ar)
  {
    Run(m, b, ar.nextParsePos, ar)
  }

  // ---------- parse_header_body_identity ----------

  function ParseBody(b: string, ar: Archive): Parsed
    requires 0 <= ar.nextParsePos <= |b|
  {
    if ar.contentLength <= 0 then Parsed(Ok, ar)
    else
      var a := ar.(bodyReceived := ar.bodyReceived + |b| - ar.nextParsePos, nextParsePos := |b|);
      Parsed(if a.bodyReceived >= a.contentLength then Ok else Again, a)
  }
}
