// What a well-formed request means: the answer to the bytes of a request line, a header block and a body, said on the
// grammar of these parts, without the machine, the handlers or their writes to the buffer.
module RequestMeaning {
  import opened Common
  import opened HttpParser
  import opened Request
  import opened HeaderMeaning
  import opened UrlSplit
  import C = ChunkIndependence
  import E = EndToEnd
  import H = HeaderGrammar
  import L = RequestLineGrammar
  import Response

  // ---------- the request line ----------

  /** The part of a string before its first NUL. */
  function BeforeNul(s: string): string {
    if s == "" || s[0] == '\0' then "" else [s[0]] + BeforeNul(s[1..])
  }

  /**
   * The name handed to openat for a path: what follows its first byte, up to a NUL.  It is resolved against the root
   * directory unless it is absolute itself, as that of "//etc" is; components ".." are not looked at.
   */
  function FileName(path: string): string
    requires path != ""
  {
    if path == "/" then "./" else BeforeNul(path[1..])
  }

  /** A request line whose URL has a path and whose version is served. */
  ghost predicate Servable(b: string, k: L.Cuts) {
    && L.LineAt(b, k)
    && (b[k.e] == ' ' || '?' in b[k.u..k.e])
    && L.LineVersion(b, k).major <= 1 && L.LineVersion(b, k).minor <= 1
  }

  ghost function UrlOf(b: string, k: L.Cuts): ReqUrl
    requires L.LineAt(b, k)
  {
    SplitUrl(b[..k.e + 1], k.u, k.e)
  }

  lemma {:induction false} BeforeNulIsTheCString(b: string, p: nat, end: nat)
    requires p <= end < |b| && b[end] == '\0'
    ensures CString(b, p) == BeforeNul(b[p..end])
    decreases end - p
  {
    if p < end && b[p] != '\0' {
      BeforeNulIsTheCString(b, p + 1, end);
      assert b[p..end][1..] == b[p + 1..end];
      var f := FindEither(b, p + 1, |b|, '\0', '\0');
      assert b[p..f] == [b[p]] + b[p + 1..f];
    }
  }

  lemma TextIsCut(b: string, path: Slice)
    requires 0 <= path.str && 0 < path.len && path.str + path.len < |b|
    ensures var end := path.str + path.len;
            && Text(b, path) != "" && Text(b, path)[0] == b[path.str] && |Text(b, path)| == path.len
            && Text(b, path)[1..] == b[end := '\0'][path.str + 1..end]
  {
  }

  lemma PathIsOpened(b: string, path: Slice)
    requires E.PathStarts(b, path) && 0 < path.len && path.str + path.len < |b|
    ensures Text(b, path) != ""
    ensures RelativePath(b[path.str + path.len := '\0'], path) == FileName(Text(b, path))
  {
    var end := path.str + path.len;
    TextIsCut(b, path);
    BeforeNulIsTheCString(b[end := '\0'], path.str + 1, end);
    hide CString, BeforeNul, Text;
    assert path.len == 1 ==> Text(b, path) == "/";
  }

  lemma MimeLiesInPath(b: string, u: nat, e: nat)
    requires UrlAt(b, u, e) && SplitUrl(b[..e + 1], u, e).absPath != NO_SLICE
    ensures var url := SplitUrl(b[..e + 1], u, e); Inside(url.absPath.str + url.absPath.len, url.mime)
  {
    hide LastMark;
    var v := b[..e + 1];
    assert forall i | u <= i <= e :: v[i] == b[i];
  }

  /** The query lies behind the byte that ends the path, if there is anything in it. */
  predicate QueryBehind(url: ReqUrl, end: int) {
    url.query.len == 0 || (url.absPath.str + url.absPath.len < url.query.str && url.query.str + url.query.len <= end)
  }

  lemma QueryLiesBehindPath(b: string, u: nat, e: nat)
    requires UrlAt(b, u, e) && SplitUrl(b[..e + 1], u, e).absPath != NO_SLICE
    ensures QueryBehind(SplitUrl(b[..e + 1], u, e), e + 1)
  {
    hide WithExtension, LastMark;
  }

  lemma PathIsNotEmpty(b: string, k: L.Cuts)
    requires Servable(b, k)
    ensures Text(b, UrlOf(b, k).absPath) != ""
  {
    LineIsParsed(b, k);
    TextIsCut(b, UrlOf(b, k).absPath);
  }

  /** What opening the path of the request finds. */
  ghost function FileAsked(w: World, b: string, k: L.Cuts): File
    requires Servable(b, k)
  {
    PathIsNotEmpty(b, k);
    w.open(FileName(Text(b, UrlOf(b, k).absPath)))
  }

  /** What the parser and parse_url leave of a request line that can be served. */
  lemma LineIsParsed(b: string, k: L.Cuts)
    requires Servable(b, k)
    ensures var url := UrlOf(b, k);
            var cut := url.absPath.str + url.absPath.len;
            && 0 < cut <= k.e < |b| && UrlInside(|b|, url) && Inside(cut, url.mime)
            && E.PathStarts(b, url.absPath) && 0 < url.absPath.len && QueryBehind(url, k.e + 1)
            && PathEnd(b, url.absPath) == Some(cut)
            && L.LineArchive(b, k).url == url && L.LineArchive(b, k).version == L.LineVersion(b, k)
  {
    hide SplitUrl, L.Value;
    E.UrlOfLine(b, k);
    PathIsSetExactlyWhen(b, k.u, k.e);
    ScanFindsPathEnd(b, k.u, k.e);
    MimeLiesInPath(b, k.u, k.e);
    QueryLiesBehindPath(b, k.u, k.e);
  }

  /** The request behind its line, with the NUL at the end of the path. */
  ghost function LineRead(b: string, k: L.Cuts, cut: nat): Request
    requires L.LineAt(b, k) && cut < |b|
  {
    FRESH.(ib := b[cut := '\0'], ar := L.LineArchive(b, k), keepAlive := L.LineVersion(b, k) == Version(1, 1))
  }

  /** The request line through its handler: 404 when there is no file, else on to the headers. */
  lemma LineIsHandled(w: World, b: string, k: L.Cuts)
    requires Servable(b, k)
    ensures var r := FRESH.(ib := b);
            var url := UrlOf(b, k);
            var cut := url.absPath.str + url.absPath.len;
            && 0 < cut <= k.e < |b| && UrlInside(|b|, url) && Inside(cut, url.mime)
            && Parse(RequestLine, b, INIT) == Parsed(Ok, L.LineArchive(b, k))
            && H.LineStart(b, L.LineArchive(b, k))
            && L.LineArchive(b, k).url == url
            && HandleRequestLine(w, r)
               == (OK, WithFile(w, LineRead(b, k, cut), FileAsked(w, b, k)))
  {
    hide UrlOf, L.LineAt, L.LineVersion, L.LineArchive, WithFile, FileName, RelativePath, PathEnd, Run, Text, UrlInside,
         Inside, E.PathStarts, WellFormed, AfterRequestLine, H.LineStart, ErrResponse;
    LineIsFound(b, k);
    LineIsParsed(b, k);
    var url := UrlOf(b, k);
    PathIsOpened(b, url.absPath);
    StartsInside(b, url.absPath);
    var r1 := FRESH.(ib := b, ar := L.LineArchive(b, k));
    OpensFile(w, r1, url.absPath.str + url.absPath.len, FileName(Text(b, url.absPath)));
  }

  lemma StartsInside(b: string, path: Slice)
    requires E.PathStarts(b, path)
    ensures 0 <= path.str < |b|
  {
  }

  lemma LineIsFound(b: string, k: L.Cuts)
    requires L.LineAt(b, k)
    ensures Ready(b, INIT) && Parse(RequestLine, b, INIT) == Parsed(Ok, L.LineArchive(b, k))
    ensures H.LineStart(b, L.LineArchive(b, k))
  {
    hide L.LineAt, L.LineVersion, SplitUrl;
    L.FindsThePartsOfTheLine(b, k);
  }

  /** The handler behind the parser, when the version is served and the path has an end. */
  lemma OpensFile(w: World, r: Request, cut: nat, name: string)
    requires r.ar.version.major <= 1 && r.ar.version.minor <= 1
    requires 0 <= r.ar.url.absPath.str && PathEnd(r.ib, r.ar.url.absPath) == Some(cut) && cut < |r.ib|
    requires 0 <= r.ar.url.absPath.str < |r.ib| && RelativePath(r.ib[cut := '\0'], r.ar.url.absPath) == name
    ensures AfterRequestLine(w, r)
         == (OK, WithFile(w, r.(ib := r.ib[cut := '\0'], keepAlive := r.ar.version == Version(1, 1)), w.open(name)))
  {
    hide PathEnd, RelativePath, WithFile, ErrResponse;
  }

  // ---------- the whole request ----------

  /** The size that is announced for a file that was found. */
  function SizeOf(f: File): int
    requires f != Missing
  {
    match f
    case Regular(content) => Int32(|content|)
    case Directory(_, Some(content)) => Int32(|content|)
    case Directory(size, None) => Int32(size)
  }

  /** What is served for a file that was found. */
  predicate Serves(f: File, s: Served)
    requires f != Missing
  {
    && s.size == SizeOf(f)
    && s.htmlMime == f.Directory?
    && s.resource == if f.Directory? then f.index else Some(f.content)
  }

  /** What is settled by the request line, before any header. */
  function FirstMarks(version: Version): Marks {
    Marks(version == Version(1, 1), -1, TeIdentity, "", 200)
  }

  ghost function MarksAfter(w: World, b: string, k: L.Cuts, ks: seq<H.Cuts>): Marks
    requires L.LineAt(b, k)
  {
    AfterLines(w, L.LineVersion(b, k).minor, b, ks, FirstMarks(L.LineVersion(b, k)))
  }

  /** The bytes that the slots, the path and the query point at are those that were received. */
  predicate TextsKept(b: string, r: Request) {
    && (forall name | name in r.slots :: Text(r.ib, r.slots[name]) == Text(b, r.slots[name]))
    && Text(r.ib, r.ar.url.absPath) == Text(b, r.ar.url.absPath)
    && Text(r.ib, r.ar.url.query) == Text(b, r.ar.url.query)
  }

  function MimeOf(b: string, f: File, url: ReqUrl): string {
    if f.Directory? then "html" else Text(b, url.mime)
  }

  /** What the last head is made from: the file, or after a refused header the page of the last error. */
  ghost function LastHead(w: World, b: string, k: L.Cuts, ks: seq<H.Cuts>, f: File): Head
    requires L.LineAt(b, k) && f != Missing
  {
    var minor, m := L.LineVersion(b, k).minor, MarksAfter(w, b, k, ks);
    if AllAccepted(w, b, ks) then Head(minor, m.code, MimeOf(b, f, UrlOf(b, k)), SizeOf(f), m.keepAlive, false)
    else Head(minor, m.code, "html", |w.page(m.code)|, m.keepAlive, true)
  }

  /** The parts of the answer that only the request line, the file and the slots decide. */
  ghost predicate LineAnswered(b: string, k: L.Cuts, ks: seq<H.Cuts>, f: File, r': Request)
    requires L.LineAt(b, k) && f != Missing
  {
    && Serves(f, r'.file)
    && r'.ar.httpMethod != INVALID && L.MethodName(r'.ar.httpMethod) == b[..k.m]
    && r'.ar.version == L.LineVersion(b, k) && r'.ar.url == UrlOf(b, k)
    && SlotsFilled(b, ks, map[], r'.slots) && TextsKept(b, r')
  }

  /**
   * The answer to a whole request for the file f, with whatever headers.  Each refused header has had its page; a
   * transfer coding that was named and refused is refused once more; otherwise the body is waited for and then a last
   * head follows.
   */
  ghost predicate Answered(w: World, b: string, k: L.Cuts, ks: seq<H.Cuts>, e: nat, f: File, ret: Ret, r': Request)
    requires L.LineAt(b, k) && f != Missing
  {
    var m, refused := MarksAfter(w, b, k, ks), !AllAccepted(w, b, ks);
    && LineAnswered(b, k, ks, f, r')
    && if m.coding != TeIdentity then
         && ret == OK && r'.handler == NoHandler && r'.ev == Interest(false, true)
         && r'.statusCode == 501 && !r'.keepAlive && r'.errReq && r'.responseDone
         && r'.out == FRESH.out.(ob := m.pages + ErrorPage(w, L.LineVersion(b, k).minor, 501))
       else
         && r'.statusCode == m.code && r'.keepAlive == m.keepAlive && r'.errReq == r'.responseDone == refused
         && if |b| - (e + 2) < m.length then
              && ret == AGAIN && r'.handler == OnBody && r'.ev == Interest(!refused, refused)
              && r'.out == FRESH.out.(ob := m.pages)
            else
              && ret == OK && r'.handler == NoHandler && r'.ev == Interest(false, true)
              && r'.out == FRESH.out.(ob := m.pages + w.render(LastHead(w, b, k, ks, f)))
  }

  /** After the blank line: the coding is refused, or the body is waited for, or the last head is assembled. */
  lemma BodyIsHandled(w: World, r: Request)
    requires Ready(r.ib, r.ar) && r.ar.bodyReceived == 0
    ensures var (ret, r') := HandleBody(w, r);
            if r.transferEncoding != TeIdentity then ret == OK && r' == ErrResponse(w, r, 501)
            else
              && r'.ar == r.ar.(nextParsePos := r'.ar.nextParsePos, bodyReceived := r'.ar.bodyReceived)
              && if |r.ib| - r.ar.nextParsePos < r.ar.contentLength then ret == AGAIN && r' == r.(ar := r'.ar)
                 else ret == OK && r' == r.(ar := r'.ar, handler := NoHandler, ev := Interest(false, true),
                                            out := r.out.(ob := r.out.ob + w.render(HeadFor(w, r))))
  {
    if r.transferEncoding == TeIdentity {
      var a := ParseBody(r.ib, r.ar).ar;
      E.HeadForgets(w, r.(ev := Interest(false, true), handler := NoHandler), a);
    }
    hide Text, WellFormed, ErrResponse, MimeText;
  }

  /** The request once its line has been handled and its file found. */
  ghost predicate LineHandled(b: string, k: L.Cuts, f: File, r: Request)
    requires L.LineAt(b, k) && f != Missing
  {
    var url := UrlOf(b, k);
    var cut := url.absPath.str + url.absPath.len;
    && 0 < cut <= k.e && Inside(cut, url.mime) && 0 <= url.absPath.str && QueryBehind(url, k.e + 1)
    && r == FRESH.(ib := b[cut := '\0'], ar := L.LineArchive(b, k), keepAlive := L.LineVersion(b, k) == Version(1, 1),
                   file := r.file, handler := OnHeaders)
    && Serves(f, r.file)
  }

  /** The request once its header lines have been handled. */
  ghost predicate HeadersHandled(w: World, b: string, k: L.Cuts, ks: seq<H.Cuts>, f: File, r: Request)
    requires L.LineAt(b, k) && f != Missing
  {
    var m := MarksAfter(w, b, k, ks);
    && r == WithMarks(FRESH, m, !AllAccepted(w, b, ks)).(
              ib := r.ib, ar := r.ar, slots := r.slots, file := r.file, handler := OnBody)
    && r.ar.contentLength == m.length && r.ar.bodyReceived == 0
    && LineAnswered(b, k, ks, f, r)
  }

  lemma LineLeaves(b: string, k: L.Cuts)
    requires L.LineAt(b, k)
    ensures var a := L.LineArchive(b, k);
            && a.httpMethod != INVALID && L.MethodName(a.httpMethod) == b[..k.m]
            && a.version == L.LineVersion(b, k) && a.url == UrlOf(b, k)
            && a.bodyReceived == 0 && a.contentLength == -1
  {
    hide L.LineVersion, SplitUrl, L.NumberPart, L.UrlPart, L.ProtocolPrefix, L.Blanks;
  }

  lemma LineIsOrdered(b: string, k: L.Cuts)
    requires L.LineAt(b, k)
    ensures k.e < k.r + 2 <= |b|
  {
  }

  /** The NUL behind the path and the lowered names touch none of the texts. */
  lemma UrlTextsAreKept(b: string, p: nat, url: ReqUrl, b': string, b'': string)
    requires var cut := url.absPath.str + url.absPath.len;
             && 0 < cut < p && cut < |b| && 0 <= url.absPath.str && QueryBehind(url, p) && Inside(cut, url.mime)
             && b' == b[cut := '\0']
    requires HeadKept(b', b'', p)
    ensures Text(b'', url.absPath) == Text(b, url.absPath)
    ensures Text(b'', url.query) == Text(b, url.query)
    ensures Text(b'', url.mime) == Text(b, url.mime)
  {
  }

  /** The value under a slot is that of one of the lines. */
  lemma {:induction false} LastIsOne(b: string, ks: seq<H.Cuts>, name: string)
    requires LastValue(b, ks, name).Some?
    ensures exists i :: 0 <= i < |ks| && ValueOf(ks[i]) == LastValue(b, ks, name).value
    decreases |ks|
  {
    hide NameOf;
    if LastValue(b, ks[1..], name).Some? {
      LastIsOne(b, ks[1..], name);
      var i :| 0 <= i < |ks[1..]| && ValueOf(ks[1..][i]) == LastValue(b, ks, name).value;
      assert ks[i + 1] == ks[1..][i];
    } else {
      assert ValueOf(ks[0]) == LastValue(b, ks, name).value;
    }
  }

  lemma SlotTextsAreKept(b: string, ks: seq<H.Cuts>, slots: map<string, Slice>, b': string)
    requires SlotsFilled(b, ks, map[], slots) && ValuesKept(b, ks, b')
    ensures forall name | name in slots :: Text(b', slots[name]) == Text(b, slots[name])
  {
    hide Text, LastValue, Known;
    forall name | name in slots
      ensures Text(b', slots[name]) == Text(b, slots[name])
    {
      LastIsOne(b, ks, name);
    }
  }

  /** The meaning of the lines does not depend on the NUL written before them. */
  lemma MeaningAfterLine(w: World, b: string, k: L.Cuts, ks: seq<H.Cuts>, f: File, r: Request, r1: Request)
    requires L.LineAt(b, k) && H.LinesAt(b, k.r + 2, ks) && f != Missing && LineHandled(b, k, f, r)
    requires BlockMeaning(w, r, ks, r1) && r1.handler == OnBody && HeadKept(r.ib, r1.ib, k.r + 2)
    ensures HeadersHandled(w, b, k, ks, f, r1)
  {
    hide SlotsFilled, AllAccepted, Serves, E.TailKept, HeadKept, H.LinesAt, L.LineVersion, L.LineArchive, AfterLines,
         Text, ValuesKept, L.MethodName, L.LineAt, UrlOf, Inside, QueryBehind;
    var p, minor := k.r + 2, L.LineVersion(b, k).minor;
    LineIsOrdered(b, k);
    CutKeepsTail(b, UrlOf(b, k).absPath.str + UrlOf(b, k).absPath.len, p);
    MeaningOnTail(w, minor, b, r.ib, p, p, ks, MarksOf(r));
    SlotsOnTail(b, r.ib, p, p, ks, r1.slots);
    LineLeaves(b, k);
    KeptInTurn(b, ks, r.ib, r1.ib);
    SlotTextsAreKept(b, ks, r1.slots, r1.ib);
    QueryInTime(UrlOf(b, k), k.e + 1, p);
    UrlTextsAreKept(b, p, UrlOf(b, k), r.ib, r1.ib);
  }

  lemma CutKeepsTail(b: string, cut: nat, p: nat)
    requires cut < p <= |b|
    ensures E.TailKept(b, b[cut := '\0'], p)
  {
  }

  lemma QueryInTime(url: ReqUrl, e: nat, p: nat)
    requires QueryBehind(url, e) && e <= p
    ensures QueryBehind(url, p)
  {
  }

  /** Headers and body of a request whose file was found. */
  lemma RestIsHandled(w: World, b: string, k: L.Cuts, ks: seq<H.Cuts>, e: nat, r: Request, f: File)
    requires L.LineAt(b, k) && H.LinesAt(b, k.r + 2, ks) && H.BlankLineAt(b, H.LinesEnd(k.r + 2, ks), e)
    requires f != Missing && LineHandled(b, k, f, r) && H.LineStart(b, r.ar)
    ensures Ready(r.ib, r.ar)
    ensures var (ret, r') := Drive(w, r);
            Answered(w, b, k, ks, e, f, ret, r')
  {
    var p := k.r + 2;
    LinesOnTail(b, r.ib, p, p, ks);
    BlankOnTail(b, r.ib, p, H.LinesEnd(p, ks), e);
    hide Run, WellFormed, Drive, Serves, HandleHeaders, HandleBody, Answered, HeadersHandled, BlockMeaning, AllAccepted;
    BlockIsHandled(w, r, ks, e);
    var r1 := HandleHeaders(w, r).1;
    DriveThroughHeaders(w, r);
    MeaningAfterLine(w, b, k, ks, f, r, r1);
    LastStage(w, b, k, ks, e, f, r, r1);
  }

  /** The head that is assembled last is made from what the bytes say. */
  lemma HeadIsLast(w: World, b: string, k: L.Cuts, ks: seq<H.Cuts>, f: File, r: Request, r1: Request)
    requires L.LineAt(b, k) && f != Missing && LineHandled(b, k, f, r) && HeadersHandled(w, b, k, ks, f, r1)
    requires HeadKept(r.ib, r1.ib, k.r + 2)
    ensures HeadFor(w, r1) == LastHead(w, b, k, ks, f)
  {
    LineIsOrdered(b, k);
    hide SlotsFilled, SizeOf, L.LineAt, L.LineVersion, L.LineArchive, HeadKept, UrlOf, Text, L.MethodName, Inside,
         AfterLines, AllAccepted, TextsKept, QueryBehind;
    QueryInTime(UrlOf(b, k), k.e + 1, k.r + 2);
    UrlTextsAreKept(b, k.r + 2, UrlOf(b, k), r.ib, r1.ib);
  }

  lemma LastStage(w: World, b: string, k: L.Cuts, ks: seq<H.Cuts>, e: nat, f: File, r: Request, r1: Request)
    requires L.LineAt(b, k) && f != Missing && LineHandled(b, k, f, r) && HeadersHandled(w, b, k, ks, f, r1)
    requires |r1.ib| == |b| && HeadKept(r.ib, r1.ib, k.r + 2) && r1.ar.nextParsePos == e + 2 && Ready(r1.ib, r1.ar)
    ensures var (ret, r') := HandleBody(w, r1);
            Answered(w, b, k, ks, e, f, ret, r')
  {
    hide HandleBody, HeadFor, LastHead, SlotsFilled, Serves, L.LineAt, L.LineVersion, L.LineArchive, HeadKept,
         WellFormed, UrlOf, Text, L.MethodName, Inside, AfterLines, AllAccepted, ErrorPage, LineHandled, QueryBehind,
         ErrResponse;
    ErrorMarks(w, r1, 501);
    BodyIsHandled(w, r1);
    HeadIsLast(w, b, k, ks, f, r, r1);
  }

  lemma DriveThroughHeaders(w: World, r: Request)
    requires Ready(r.ib, r.ar) && r.handler == OnHeaders
    requires HandleHeaders(w, r).0 == OK && HandleHeaders(w, r).1.handler == OnBody
    ensures Ready(HandleHeaders(w, r).1.ib, HandleHeaders(w, r).1.ar)
    ensures Drive(w, r) == HandleBody(w, HandleHeaders(w, r).1)
  {
    hide HandleHeaders, HandleBody, WellFormed;
  }

  lemma SlotsOnTail(b: string, b': string, p: nat, s: nat, ks: seq<H.Cuts>, slots: map<string, Slice>)
    requires E.TailKept(b, b', p) && p <= s && H.LinesAt(b, s, ks)
    ensures SlotsFilled(b', ks, map[], slots) <==> SlotsFilled(b, ks, map[], slots)
  {
    forall name
      ensures LastValue(b', ks, name) == LastValue(b, ks, name)
    {
      ValuesOnTail(b, b', p, s, ks, name);
    }
  }

  // ---------- a request that gets an error response and nothing else ----------

  /** The output is a head with this code, which announces the page and the end of the connection, and then the page. */
  predicate ErrorAnswer(w: World, minor: nat, code: int, ret: Ret, r': Request) {
    && ret == OK && r'.statusCode == code && r'.errReq && r'.responseDone && !r'.keepAlive
    && r'.handler == NoHandler && r'.ev == Interest(false, true) && r'.slots == map[] && r'.file == FRESH.file
    && r'.out == FRESH.out.(ob := w.render(ErrorHead(w, minor, code)) + w.page(code))
  }

  lemma OnlyError(w: World, r: Request, code: int)
    requires r == FRESH.(ib := r.ib, ar := r.ar, keepAlive := r.keepAlive)
    ensures ErrorAnswer(w, r.ar.version.minor, code, OK, ErrResponse(w, r, code))
  {
    NothingBefore(w.render(ErrorHead(w, r.ar.version.minor, code)) + w.page(code));
  }

  /** A path that leads to no file is answered with 404, whatever comes behind the request line. */
  lemma MissingIsAnswered(w: World, b: string, k: L.Cuts)
    requires Servable(b, k) && FileAsked(w, b, k) == Missing
    ensures Ready(b, INIT)
    ensures var (ret, r') := Drive(w, FRESH.(ib := b));
            ErrorAnswer(w, L.LineVersion(b, k).minor, 404, ret, r')
  {
    hide Run, WellFormed, Drive, HandleRequestLine, FileAsked, UrlOf, Text, Inside, L.LineVersion, L.LineArchive,
         L.LineAt, E.PathStarts, ErrResponse, ErrorAnswer, UrlInside;
    FreshIsReady(b);
    LineIsHandled(w, b, k);
    LineLeaves(b, k);
    DriveThroughLine(w, FRESH.(ib := b));
    var cut := UrlOf(b, k).absPath.str + UrlOf(b, k).absPath.len;
    OnlyError(w, LineRead(b, k, cut), 404);
  }

  /**
   * The first visit with a request line, header lines and a blank line in the buffer: without the file it is answered
   * with 404, and with it as the bytes say, whether or not headers are refused.
   */
  lemma RequestIsAnswered(w: World, b: string, k: L.Cuts, ks: seq<H.Cuts>, e: nat)
    requires Servable(b, k) && H.LinesAt(b, k.r + 2, ks) && H.BlankLineAt(b, H.LinesEnd(k.r + 2, ks), e)
    ensures var (ret, r') := Drive(w, FRESH.(ib := b));
            var f := FileAsked(w, b, k);
            if f == Missing then ErrorAnswer(w, L.LineVersion(b, k).minor, 404, ret, r')
            else Answered(w, b, k, ks, e, f, ret, r')
  {
    FreshIsReady(b);
    hide Run, WellFormed, Drive, HandleRequestLine, FileAsked, UrlOf, Text, Inside, L.LineVersion, L.LineArchive,
         Answered, H.LinesAt, H.BlankLineAt, L.LineAt, ErrorAnswer, QueryBehind, E.PathStarts;
    if FileAsked(w, b, k) == Missing {
      MissingIsAnswered(w, b, k);
    } else {
      FoundIsHandled(w, b, k);
      RestIsHandled(w, b, k, ks, e, HandleRequestLine(w, FRESH.(ib := b)).1, FileAsked(w, b, k));
    }
  }

  /** With its file there, the request goes on to the headers. */
  lemma FoundIsHandled(w: World, b: string, k: L.Cuts)
    requires Servable(b, k) && FileAsked(w, b, k) != Missing
    ensures Ready(b, INIT)
    ensures var (ret, r1) := HandleRequestLine(w, FRESH.(ib := b));
            && ret == OK && LineHandled(b, k, FileAsked(w, b, k), r1) && H.LineStart(b, r1.ar)
            && Ready(r1.ib, r1.ar) && Drive(w, FRESH.(ib := b)) == Drive(w, r1)
  {
    FreshIsReady(b);
    hide Run, WellFormed, Drive, HandleRequestLine, FileAsked, UrlOf, Text, Inside, L.LineVersion, L.LineArchive,
         L.LineAt, QueryBehind, E.PathStarts;
    LineIsHandled(w, b, k);
    LineIsParsed(b, k);
    StartsInside(b, UrlOf(b, k).absPath);
    LineLeaves(b, k);
    DriveThroughLine(w, FRESH.(ib := b));
  }

  // ---------- accepted requests ----------

  /**
   * The head of the response: version and status, the type by the extension of the path, the size, and what becomes of
   * the connection.
   */
  ghost function HeadOf(w: World, b: string, k: L.Cuts, ks: seq<H.Cuts>, f: File): string
    requires L.LineAt(b, k) && f != Missing
  {
    var version := L.LineVersion(b, k);
    w.render(Head(version.minor, 200, MimeOf(b, f, UrlOf(b, k)), SizeOf(f),
      KeepAlive(b, ks, version == Version(1, 1)), false))
  }

  /** The answer to an accepted request for the file f. */
  ghost predicate AnsweredWithFile(w: World, b: string, k: L.Cuts, ks: seq<H.Cuts>, e: nat, f: File, ret: Ret,
      r': Request)
    requires L.LineAt(b, k) && f != Missing
  {
    && LineAnswered(b, k, ks, f, r')
    && r'.statusCode == 200 && !r'.errReq && !r'.responseDone
    && r'.keepAlive == KeepAlive(b, ks, L.LineVersion(b, k) == Version(1, 1))
    && if |b| - (e + 2) < Length(w, b, ks, -1)
       then ret == AGAIN && r'.handler == OnBody && r'.ev == Interest(true, false) && r'.out == FRESH.out
       else
         && ret == OK && r'.handler == NoHandler && r'.ev == Interest(false, true)
         && r'.out == FRESH.out.(ob := HeadOf(w, b, k, ks, f))
  }

  /** When no header is refused, the answer is the file, and the last Connection and Content-Length decide. */
  lemma AcceptedAnswer(w: World, b: string, k: L.Cuts, ks: seq<H.Cuts>, e: nat, f: File, ret: Ret, r': Request)
    requires L.LineAt(b, k) && f != Missing && Answered(w, b, k, ks, e, f, ret, r') && AllAccepted(w, b, ks)
    ensures AnsweredWithFile(w, b, k, ks, e, f, ret, r')
  {
    AcceptedLines(w, L.LineVersion(b, k).minor, b, ks, FirstMarks(L.LineVersion(b, k)));
    hide LineAnswered, AfterLines, KeepAlive, Length, L.LineVersion, L.LineAt, AllAccepted, UrlOf, SizeOf, MimeOf,
         ErrorPage;
    NothingBefore(w.render(LastHead(w, b, k, ks, f)));
  }

  lemma NothingBefore(s: string)
    ensures "" + s == s
  {
  }

  lemma FreshIsReady(b: string)
    ensures Ready(b, INIT)
  {
  }

  lemma DriveThroughLine(w: World, r: Request)
    requires Ready(r.ib, r.ar) && r.handler == OnRequestLine && HandleRequestLine(w, r).0 == OK
    ensures var r1 := HandleRequestLine(w, r).1;
            if r1.handler == NoHandler then Drive(w, r) == (OK, r1)
            else Ready(r1.ib, r1.ar) && Drive(w, r) == Drive(w, r1)
  {
    hide HandleRequestLine, WellFormed;
  }

  /** Texts that lie in the front of a buffer do not change with what is behind. */
  lemma TextsInFront(b: string, x: Request, y: Request)
    requires TextsKept(b, x) && y.slots == x.slots && y.ar.url == x.ar.url
    requires y.ib <= x.ib && E.SlicesInside(y) && y.handler != OnRequestLine && !y.errReq
    ensures TextsKept(b, y)
  {
    var c := x.ib[|y.ib|..];
    assert x.ib == y.ib + c;
    hide Text;
    forall name | name in y.slots
      ensures Text(y.ib, y.slots[name]) == Text(b, y.slots[name])
    {
      E.TextOnLonger(y.ib, c, y.slots[name]);
    }
    E.TextOnLonger(y.ib, c, y.ar.url.absPath);
    E.TextOnLonger(y.ib, c, y.ar.url.query);
  }

  /** The answer shows in the outcome and in the front of the bytes. */
  lemma OutcomeDecides(w: World, b: string, k: L.Cuts, ks: seq<H.Cuts>, e: nat, f: File, ret: Ret, x: Request,
      y: Request)
    requires L.LineAt(b, k) && f != Missing && AnsweredWithFile(w, b, k, ks, e, f, ret, x)
    ensures !x.errReq && ret != FAULT
    ensures E.Outcome(x) == E.Outcome(y) && y.ib <= x.ib && E.SlicesInside(y)
            ==> AnsweredWithFile(w, b, k, ks, e, f, ret, y)
  {
    hide SlotsFilled, Serves, Length, KeepAlive, Text, L.LineAt, L.LineVersion, L.MethodName, TextsKept, E.SlicesInside,
         HeadOf;
    if E.Outcome(x) == E.Outcome(y) && y.ib <= x.ib && E.SlicesInside(y) {
      assert E.Outcome(x).ar.url == x.ar.url && E.Outcome(y).ar.url == y.ar.url;
      assert E.Outcome(x).slots == x.slots && E.Outcome(y).slots == y.slots;
      assert E.Outcome(x).handler == x.handler && E.Outcome(y).handler == y.handler;
      TextsInFront(b, x, y);
    }
  }

  /** The bytes b ask for a file that is there, in header lines that are all accepted. */
  ghost predicate WellAsked(w: World, b: string, k: L.Cuts, ks: seq<H.Cuts>, e: nat) {
    && Servable(b, k) && H.LinesAt(b, k.r + 2, ks) && H.BlankLineAt(b, H.LinesEnd(k.r + 2, ks), e)
    && AllAccepted(w, b, ks) && FileAsked(w, b, k) != Missing
  }

  lemma WellAskedIsAnswered(w: World, b: string, k: L.Cuts, ks: seq<H.Cuts>, e: nat)
    requires WellAsked(w, b, k, ks, e)
    ensures b != "" && Ready(b, INIT) && Servable(b, k) && FileAsked(w, b, k) != Missing
    ensures var (ret, r') := Drive(w, FRESH.(ib := b));
            AnsweredWithFile(w, b, k, ks, e, FileAsked(w, b, k), ret, r')
  {
    LineIsOrdered(b, k);
    FreshIsReady(b);
    RequestIsAnswered(w, b, k, ks, e);
    var (ret, r') := Drive(w, FRESH.(ib := b));
    hide Answered, AnsweredWithFile;
    AcceptedAnswer(w, b, k, ks, e, FileAsked(w, b, k), ret, r');
  }

  /** Such a request is answered as its bytes say, however the network cuts them. */
  lemma AnsweredHoweverCut(w: World, chunks: seq<string>, k: L.Cuts, ks: seq<H.Cuts>, e: nat)
    requires WellAsked(w, C.Concat(chunks), k, ks, e)
    ensures chunks != [] && E.Waiting(FRESH)
    ensures var b := C.Concat(chunks);
            var (ret, r') := E.Feed(w, FRESH, chunks);
            AnsweredWithFile(w, b, k, ks, e, FileAsked(w, b, k), ret, r')
  {
    hide AnsweredWithFile, Drive, E.Feed, E.Outcome, L.LineAt, E.Waiting, FileAsked, WellAsked, WellFormed;
    var b := C.Concat(chunks);
    E.FreshIsWaiting();
    WellAskedIsAnswered(w, b, k, ks, e);
    assert "" + b == b;
    var f, whole, cut := FileAsked(w, b, k), Drive(w, FRESH.(ib := b)), E.Feed(w, FRESH, chunks);
    OutcomeDecides(w, b, k, ks, e, f, whole.0, whole.1, cut.1);
    E.FeedKeepsSlices(w, FRESH, chunks);
    E.CutsDoNotMatter(w, FRESH, chunks);
  }

  // ---------- from the bytes received to the bytes sent ----------

  /**
   * The body that answers a request for the file: its content, unless the size is lost to 0 in the field that holds it.
   */
  function BodyOf(f: File): string {
    match f
    case Regular(content) => if Int32(|content|) == 0 then "" else content
    case Directory(_, Some(content)) => if Int32(|content|) == 0 then "" else content
    case _ => ""
  }

  lemma ResponseIsPending(w: World, b: string, k: L.Cuts, ks: seq<H.Cuts>, e: nat, f: File, r: Request)
    requires L.LineAt(b, k) && f != Missing && AnsweredWithFile(w, b, k, ks, e, f, OK, r)
    ensures Response.OutOk(r) && !r.responseDone
    ensures Response.Pending(r) == HeadOf(w, b, k, ks, f) + BodyOf(f)
  {
    hide HeadOf, SlotsFilled, TextsKept, Length, KeepAlive, L.LineVersion, L.LineAt, UrlOf, L.MethodName;
  }

  /**
   * However the bytes of an accepted request come in, and however the socket takes those of the response: the wire
   * carries the head and then the file, in order and without gaps, and both in full once the response is done.
   */
  lemma ExchangeIsExact(w: World, chunks: seq<string>, k: L.Cuts, ks: seq<H.Cuts>, e: nat,
      scripts: seq<seq<Response.IoResult>>)
    requires var b := C.Concat(chunks); WellAsked(w, b, k, ks, e) && |b| - (e + 2) >= Length(w, b, ks, -1)
    ensures chunks != [] && E.Waiting(FRESH)
    ensures var b, r' := C.Concat(chunks), E.Feed(w, FRESH, chunks).1;
            && Response.OutOk(r') && !r'.responseDone
            && var f := FileAsked(w, b, k);
               var all, s := HeadOf(w, b, k, ks, f) + BodyOf(f), Response.Transmit(r', scripts);
               s.wire <= all && (s.r.responseDone ==> s.wire == all)
  {
    hide H.LinesAt, H.BlankLineAt, Response.Transmit, E.Feed, HeadOf, UrlOf, FileAsked, AllAccepted, BodyOf,
         Response.Pending;
    AnsweredHoweverCut(w, chunks, k, ks, e);
    var b := C.Concat(chunks);
    var (ret, r') := E.Feed(w, FRESH, chunks);
    assert ret == OK;
    hide AnsweredWithFile;
    ResponseIsPending(w, b, k, ks, e, FileAsked(w, b, k), r');
    Response.OutputIsConserved(r', scripts);
  }
}
