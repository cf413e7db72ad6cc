// The request pipeline on a longer buffer, and so on bytes that come in pieces: unless a header is refused, it does not
// depend on how the network cuts them.  CutIndependence.dfy has the exact condition.
//
// The handlers write into the input buffer (a NUL after the path, lower-cased names).  All of these writes land before
// the parse position, so a handler run on a longer buffer writes the same bytes and leaves the same tail.
module EndToEnd {
  import opened Common
  import opened HttpParser
  import opened ChunkIndependence
  import opened RequestLineGrammar
  import opened UrlSplit
  import H = HeaderGrammar
  import opened Request

  /** More bytes have arrived behind those of r. */
  function Plus(r: Request, c: string): Request {
    r.(ib := r.ib + c)
  }

  function Forget(r: Request): Request {
    r.(ar := r.ar.(nextParsePos := 0))
  }

  /** Equal results; once no handler is left the stored parse position is not compared. */
  ghost predicate Same(x: (Ret, Request), y: (Ret, Request)) {
    && x.0 == y.0
    && Forget(x.1) == Forget(y.1)
    && (x.1.handler != NoHandler ==> x.1 == y.1)
  }

  // ---------- pieces on a longer buffer ----------

  lemma FindOnLonger(b: string, c: string, lo: nat, x: char, y: char)
    requires lo <= |b| && FindEither(b, lo, |b|, x, y) < |b|
    ensures FindEither(b + c, lo, |b + c|, x, y) == FindEither(b, lo, |b|, x, y)
  {
    var f, g := FindEither(b, lo, |b|, x, y), FindEither(b + c, lo, |b + c|, x, y);
    hide FindEither;
    assert forall i | lo <= i <= f :: (b + c)[i] == b[i];
    assert g == f;
  }

  lemma TextOnLonger(b: string, c: string, s: Slice)
    requires Inside(|b|, s)
    ensures Text(b + c, s) == Text(b, s)
  {
  }

  lemma LoweredOnLonger(b: string, c: string, s: Slice)
    requires Inside(|b|, s)
    ensures Lowered(b + c, s) == Lowered(b, s) + c
  {
  }

  // ---------- the request line ----------

  lemma ErrOnLonger(w: World, r: Request, code: int, c: string)
    ensures ErrResponse(w, Plus(r, c), code) == Plus(ErrResponse(w, r, code), c)
  {
  }

  lemma RelativePathOnLonger(b: string, c: string, path: Slice, end: nat)
    requires 0 <= path.str < end < |b| && b[end] == '\0'
    ensures RelativePath(b + c, path) == RelativePath(b, path)
  {
    var p := path.str + 1;
    var f := FindEither(b, p, |b|, '\0', '\0');
    assert f <= end;
    FindOnLonger(b, c, p, '\0', '\0');
    assert (b + c)[p..f] == b[p..f];
  }

  /** A path that the parser has set begins with '/'. */
  predicate PathStarts(b: string, path: Slice) {
    0 <= path.str < |b| && b[path.str] == '/'
  }

  /** The bytes after the end of the path do not matter: the NUL is written where it was before. */
  lemma PathOnLonger(b: string, c: string, path: Slice)
    requires PathStarts(b, path) && PathEnd(b, path).Some?
    ensures PathEnd(b + c, path) == PathEnd(b, path)
    ensures var end := PathEnd(b, path).value;
            && (b + c)[end := '\0'] == b[end := '\0'] + c
            && RelativePath((b + c)[end := '\0'], path) == RelativePath(b[end := '\0'], path)
  {
    FindOnLonger(b, c, path.str, ' ', '?');
    var end := PathEnd(b, path).value;
    RelativePathOnLonger(b[end := '\0'], c, path, end);
    assert (b + c)[end := '\0'] == b[end := '\0'] + c;
  }

  lemma WithFileOnLonger(w: World, r: Request, f: File, c: string)
    ensures WithFile(w, Plus(r, c), f) == Plus(WithFile(w, r, f), c)
  {
    hide ErrResponse, Int32;
    match f
    case Missing => ErrOnLonger(w, r, 404, c);
    case Regular(_) =>
    case Directory(_, _) =>
  }

  lemma AfterRequestLineOnLonger(w: World, r: Request, c: string)
    requires r.ar.version.major > 1 || r.ar.version.minor > 1 || PathStarts(r.ib, r.ar.url.absPath)
    requires AfterRequestLine(w, r).0 == OK
    ensures AfterRequestLine(w, Plus(r, c)) == (OK, Plus(AfterRequestLine(w, r).1, c))
  {
    hide PathEnd, RelativePath, WithFile, ErrResponse;
    if r.ar.version.major > 1 || r.ar.version.minor > 1 {
      ErrOnLonger(w, r, 505, c);
    } else {
      var path := r.ar.url.absPath;
      PathOnLonger(r.ib, c, path);
      var b := r.ib[PathEnd(r.ib, path).value := '\0'];
      var f := w.open(RelativePath(b, path));
      var r2 := r.(keepAlive := r.ar.version == Version(1, 1), ib := b);
      assert AfterRequestLine(w, r) == (OK, WithFile(w, r2, f));
      assert AfterRequestLine(w, Plus(r, c)) == (OK, WithFile(w, Plus(r2, c), f));
      WithFileOnLonger(w, r2, f, c);
    }
  }

  // ---------- what the parser has found by the end of the request line ----------

  /** While the request line is read, the archive is what the parser makes of the bytes it has seen. */
  ghost predicate History(r: Request) {
    && Ready(r.ib, r.ar)
    && (r.handler == OnRequestLine ==> Parse(RequestLine, r.ib[..r.ar.nextParsePos], INIT) == Parsed(Again, r.ar))
  }

  lemma HistoryParse(r: Request)
    requires History(r) && r.handler == OnRequestLine
    ensures Agree(Parse(RequestLine, r.ib, r.ar), Parse(RequestLine, r.ib, INIT))
  {
    var n := r.ar.nextParsePos;
    RunOnLongerBuffer(RequestLine, r.ib[..n], r.ib[n..], 0, INIT);
    assert r.ib[..n] + r.ib[n..] == r.ib;
  }

  /** What became of the URL of a line. */
  lemma UrlOfLine(b: string, k: RequestLineGrammar.Cuts)
    requires LineAt(b, k)
    ensures UrlAt(b, k.u, k.e)
    ensures var u := LineArchive(b, k).url;
            && u == SplitUrl(b[..k.e + 1], k.u, k.e)
            && UrlInside(|b|, u)
            && (u.absPath != NO_SLICE ==>
                  PathStarts(b, u.absPath) && PathEnd(b, u.absPath) == Some(u.absPath.str + u.absPath.len))
            && (u.absPath == NO_SLICE ==> PathEnd(b, u.absPath) == None)
    ensures LineArchive(b, k).version == LineVersion(b, k)
  {
    hide SplitUrl, Value, Blanks, ProtocolPrefix, NumberPart, MethodPart, MethodNamed;
    var u := SplitUrl(b[..k.e + 1], k.u, k.e);
    if u.absPath != NO_SLICE {
      ScanFindsPathEnd(b, k.u, k.e);
    }
  }

  /** The line behind an OK. */
  lemma LineFound(r: Request) returns (k: RequestLineGrammar.Cuts)
    requires History(r) && r.handler == OnRequestLine && Parse(RequestLine, r.ib, r.ar).status == Ok
    ensures LineAt(r.ib, k) && Parse(RequestLine, r.ib, r.ar).ar == LineArchive(r.ib, k)
  {
    HistoryParse(r);
    hide LineAt, LineArchive, Run;
    k := OkMeansLine(r.ib);
  }

  lemma FaultsWithoutPath(w: World, r: Request)
    ensures AfterRequestLine(w, r).0 == FAULT <==>
              r.ar.version.major <= 1 && r.ar.version.minor <= 1 && PathEnd(r.ib, r.ar.url.absPath) == None
  {
  }

  lemma PathMissingExactlyWhen(b: string, k: RequestLineGrammar.Cuts)
    requires LineAt(b, k)
    ensures PathEnd(b, LineArchive(b, k).url.absPath) == None <==> b[k.e] == '\t' && '?' !in b[k.u..k.e]
  {
    UrlOfLine(b, k);
    hide LineAt, LineArchive, SplitUrl, PathEnd;
    PathIsSetExactlyWhen(b, k.u, k.e);
  }

  /**
   * The handler follows a wild pointer exactly on a line whose URL is ended by a TAB and holds no '?', unless the
   * version was refused first.
   */
  lemma FaultsExactlyWhen(w: World, r: Request, k: RequestLineGrammar.Cuts)
    requires History(r) && r.handler == OnRequestLine && LineAt(r.ib, k)
    ensures HandleRequestLine(w, r).0 == FAULT <==>
              && LineVersion(r.ib, k).major <= 1 && LineVersion(r.ib, k).minor <= 1
              && r.ib[k.e] == '\t' && '?' !in r.ib[k.u..k.e]
  {
    HistoryParse(r);
    FindsThePartsOfTheLine(r.ib, k);
    PathMissingExactlyWhen(r.ib, k);
    UrlOfLine(r.ib, k);
    hide SplitUrl, PathEnd, LineAt, Run, AfterRequestLine, LineArchive, LineVersion, WellFormed, UrlAt, PathStarts;
    FaultsWithoutPath(w, r.(ar := LineArchive(r.ib, k)));
  }

  // ---------- the request-line stage ----------

  lemma RequestLineResumes(w: World, r: Request, c: string)
    requires Ready(r.ib, r.ar) && HandleRequestLine(w, r).0 == AGAIN
    ensures var r1 := HandleRequestLine(w, r).1;
            && Ready(r1.ib + c, r1.ar) && Ready(r.ib + c, r.ar)
            && Same(HandleRequestLine(w, Plus(r1, c)), HandleRequestLine(w, Plus(r, c)))
  {
    hide AfterRequestLine, WellFormed, Run;
    RunOnLongerBuffer(RequestLine, r.ib, c, r.ar.nextParsePos, r.ar);
  }

  lemma RequestLineOnLonger(w: World, r: Request, c: string)
    requires History(r) && r.handler == OnRequestLine && HandleRequestLine(w, r).0 == OK
    ensures Ready(r.ib + c, r.ar)
    ensures HandleRequestLine(w, Plus(r, c)) == (OK, Plus(HandleRequestLine(w, r).1, c))
  {
    hide AfterRequestLine, ErrResponse, WellFormed, Run;
    RunOnLongerBuffer(RequestLine, r.ib, c, r.ar.nextParsePos, r.ar);
    var p := Parse(RequestLine, r.ib, r.ar);
    if p.status == Ok {
      var r1 := r.(ar := p.ar);
      hide LineAt, LineArchive;
      var k := LineFound(r);
      UrlOfLine(r.ib, k);
      FaultsWithoutPath(w, r1);
      AfterRequestLineOnLonger(w, r1, c);
    } else {
      ErrOnLonger(w, r.(ar := p.ar), 400, c);
    }
  }

  // ---------- the header stage ----------

  lemma ConnectionOnLonger(w: World, r: Request, text: string, c: string)
    ensures WithConnection(w, Plus(r, c), text) == Plus(WithConnection(w, r, text), c)
    ensures WithContentLength(w, Plus(r, c), text) == Plus(WithContentLength(w, r, text), c)
  {
    hide CaseEqual, ErrResponse;
    ErrOnLonger(w, r, 400, c);
  }

  lemma TransferEncodingOnLonger(w: World, r: Request, text: string, c: string)
    ensures WithTransferEncoding(w, Plus(r, c), text) == Plus(WithTransferEncoding(w, r, text), c)
  {
    hide Coding, ErrResponse;
    match Coding(text)
    case Some(te) =>
      assert Plus(r, c).(transferEncoding := te) == Plus(r.(transferEncoding := te), c);
      ErrOnLonger(w, r.(transferEncoding := te), 501, c);
    case None => ErrOnLonger(w, r, 400, c);
  }

  lemma ReadyAfterHeader(w: World, r: Request)
    requires Ready(r.ib, r.ar)
    ensures var r' := OnHeader(w, r); Ready(r'.ib, r'.ar) && r'.ar.url == r.ar.url
  {
    hide OnHeader;
  }

  lemma OnHeaderOnLonger(w: World, r: Request, c: string)
    requires Inside(|r.ib|, r.ar.headerName) && Inside(|r.ib|, r.ar.headerValue)
    ensures OnHeader(w, Plus(r, c)) == Plus(OnHeader(w, r), c)
  {
    hide Lowered, Text, Lookup, WithConnection, WithContentLength, WithTransferEncoding;
    LoweredOnLonger(r.ib, c, r.ar.headerName);
    var b := Lowered(r.ib, r.ar.headerName);
    TextOnLonger(b, c, r.ar.headerName);
    TextOnLonger(b, c, r.ar.headerValue);
    var r1 := r.(ib := b);
    var r2 := r1.(slots := r1.slots[Text(b, r.ar.headerName) := r.ar.headerValue]);
    ConnectionOnLonger(w, r2, Text(b, r.ar.headerValue), c);
    TransferEncodingOnLonger(w, r2, Text(b, r.ar.headerValue), c);
    assert Plus(r, c).(ib := Lowered(r.ib + c, r.ar.headerName)) == Plus(r1, c);
    assert Plus(r1, c).(slots := r1.slots[Text(b, r.ar.headerName) := r.ar.headerValue]) == Plus(r2, c);
  }

  lemma HeadersStopResumes(w: World, r: Request, c: string)
    requires Ready(r.ib, r.ar) && Parse(HeaderLine, r.ib, r.ar).status == Again
    ensures Ready(r.ib + c, r.ar)
    ensures var r1 := HandleHeaders(w, r).1;
            && r1.ar.url == r.ar.url
            && Ready(r1.ib + c, r1.ar)
            && Same(HandleHeaders(w, Plus(r1, c)), HandleHeaders(w, Plus(r, c)))
  {
    hide OnHeader, ErrResponse, WellFormed, Run, Same;
    RunOnLongerBuffer(HeaderLine, r.ib, c, r.ar.nextParsePos, r.ar);
    var r1 := r.(ar := Parse(HeaderLine, r.ib, r.ar).ar);
    var q, q1 := Parse(HeaderLine, r.ib + c, r.ar), Parse(HeaderLine, r.ib + c, r1.ar);
    SameAsItself(HandleHeaders(w, Plus(r, c)));
    if q.status == InvalidRequest {
      ErrForgets(w, Plus(r, c), q1.ar, q.ar, 400);
    }
  }

  lemma SameAsItself(x: (Ret, Request))
    ensures Same(x, x)
  {
  }

  lemma {:induction false} HeadersResume(w: World, r: Request, c: string)
    requires Ready(r.ib, r.ar) && HandleHeaders(w, r).0 == AGAIN
    ensures Ready(r.ib + c, r.ar)
    ensures var r1 := HandleHeaders(w, r).1;
            && r1.ar.url == r.ar.url
            && Ready(r1.ib + c, r1.ar)
            && Same(HandleHeaders(w, Plus(r1, c)), HandleHeaders(w, Plus(r, c)))
    decreases |r.ib| - r.ar.nextParsePos
  {
    hide OnHeader, ErrResponse, WellFormed, Run, Same;
    if Parse(HeaderLine, r.ib, r.ar).status == Ok {
      RunOnLongerBuffer(HeaderLine, r.ib, c, r.ar.nextParsePos, r.ar);
      var r0 := r.(ar := Parse(HeaderLine, r.ib, r.ar).ar);
      ReadyAfterHeader(w, r0);
      OnHeaderOnLonger(w, r0, c);
      HeadersResume(w, OnHeader(w, r0), c);
    } else {
      HeadersStopResumes(w, r, c);
    }
  }

  lemma ErrForgets(w: World, r: Request, a: Archive, a': Archive, code: int)
    requires a.(nextParsePos := 0) == a'.(nextParsePos := 0)
    ensures Same((OK, ErrResponse(w, r.(ar := a), code)), (OK, ErrResponse(w, r.(ar := a'), code)))
  {
  }

  lemma {:induction false} HeadersOnLonger(w: World, r: Request, c: string)
    requires Ready(r.ib, r.ar) && HandleHeaders(w, r).0 == OK
    ensures Ready(r.ib + c, r.ar)
    ensures HandleHeaders(w, r).1.ar.url == r.ar.url
    ensures HandleHeaders(w, Plus(r, c)) == (OK, Plus(HandleHeaders(w, r).1, c))
    decreases |r.ib| - r.ar.nextParsePos
  {
    hide OnHeader, ErrResponse, WellFormed, Run;
    RunOnLongerBuffer(HeaderLine, r.ib, c, r.ar.nextParsePos, r.ar);
    var p := Parse(HeaderLine, r.ib, r.ar);
    var r0 := r.(ar := p.ar);
    PlusWith(r, c, p.ar);
    match p.status {
      case Ok =>
        ReadyAfterHeader(w, r0);
        OnHeaderOnLonger(w, r0, c);
        HeadersOnLonger(w, OnHeader(w, r0), c);
      case InvalidRequest =>
        ErrOnLonger(w, r0, 400, c);
      case _ =>
    }
  }

  lemma PlusWith(r: Request, c: string, a: Archive)
    ensures Plus(r, c).(ar := a) == Plus(r.(ar := a), c)
  {
  }

  // ---------- the body stage ----------

  /** What a finished request is judged by: everything but the input bytes left over and the count of them. */
  function Outcome(r: Request): Request {
    r.(ib := "", ar := r.ar.(nextParsePos := 0, bodyReceived := 0))
  }

  lemma BodyResumes(w: World, r: Request, c: string)
    requires Ready(r.ib, r.ar) && HandleBody(w, r).0 == AGAIN
    ensures var r1 := HandleBody(w, r).1;
            && r1.ar.url == r.ar.url && Ready(r1.ib + c, r1.ar) && Ready(r.ib + c, r.ar)
            && HandleBody(w, Plus(r1, c)) == HandleBody(w, Plus(r, c))
  {
  }

  lemma HeadOnLonger(w: World, r: Request, c: string)
    requires UrlInside(|r.ib|, r.ar.url)
    ensures HeadFor(w, Plus(r, c)) == HeadFor(w, r)
  {
    TextOnLonger(r.ib, c, r.ar.url.mime);
    hide Text;
  }

  lemma AssembleOnLonger(w: World, r: Request, c: string)
    requires UrlInside(|r.ib|, r.ar.url)
    ensures Assemble(w, Plus(r, c)) == Plus(Assemble(w, r), c)
  {
    HeadOnLonger(w, r, c);
    hide HeadFor;
  }

  lemma HeadForgets(w: World, r: Request, a: Archive)
    requires a == r.ar.(nextParsePos := a.nextParsePos, bodyReceived := a.bodyReceived)
    ensures HeadFor(w, r.(ar := a)) == HeadFor(w, r)
  {
    hide Text;
  }

  /** The parts of the request that the count of the body is not one of do not depend on it. */
  lemma AssembleForgets(w: World, r: Request, a: Archive)
    requires a == r.ar.(nextParsePos := a.nextParsePos, bodyReceived := a.bodyReceived)
    ensures Outcome(Assemble(w, r.(ar := a))) == Outcome(Assemble(w, r))
  {
    HeadForgets(w, r, a);
    hide HeadFor;
  }

  lemma BodyOnLonger(w: World, r: Request, c: string)
    requires Ready(r.ib, r.ar) && UrlInside(|r.ib|, r.ar.url) && HandleBody(w, r).0 == OK
    ensures Ready(r.ib + c, r.ar)
    ensures var (ret, r') := HandleBody(w, Plus(r, c));
            ret == OK && Outcome(r') == Outcome(HandleBody(w, r).1) && r'.ib == HandleBody(w, r).1.ib + c
  {
    ReadyIsKept(r.ib, c, r.ar);
    hide Assemble, Outcome, WellFormed, ErrResponse;
    if r.transferEncoding != TeIdentity {
      ErrOnLonger(w, r, 501, c);
      OutcomeForgets(ErrResponse(w, r, 501), c);
    } else {
      var done := r.(ev := Interest(false, true), handler := NoHandler);
      AssembleForgets(w, done, ParseBody(r.ib, r.ar).ar);
      AssembleForgets(w, Plus(done, c), ParseBody(r.ib + c, r.ar).ar);
      AssembleOnLonger(w, done, c);
      OutcomeForgets(Assemble(w, done), c);
    }
  }

  lemma ReadyIsKept(b: string, c: string, ar: Archive)
    requires Ready(b, ar)
    ensures Ready(b + c, ar)
  {
  }

  lemma OutcomeForgets(r: Request, c: string)
    ensures Outcome(Plus(r, c)) == Outcome(r)
  {
  }

  // ---------- request_handle ----------

  /** A request that can go on: it has a handler, and what the parser holds is explained by the bytes seen. */
  ghost predicate Waiting(r: Request) {
    && r.handler != NoHandler
    && History(r)
    && (r.handler != OnRequestLine ==> UrlInside(|r.ib|, r.ar.url))
  }

  lemma WaitingOnLonger(r: Request, c: string)
    requires Waiting(r)
    ensures Waiting(Plus(r, c))
  {
    hide WellFormed;
    assert (r.ib + c)[..r.ar.nextParsePos] == r.ib[..r.ar.nextParsePos];
  }

  lemma RequestLineKeepsWaiting(w: World, r: Request)
    requires Waiting(r) && r.handler == OnRequestLine
    ensures var (ret, r1) := HandleRequestLine(w, r);
            ret != FAULT && r1.handler != NoHandler ==> Waiting(r1)
  {
    hide Run, WellFormed, ErrResponse, LineAt, LineArchive, AfterRequestLine;
    HistoryParse(r);
    var p := Parse(RequestLine, r.ib, r.ar);
    if p.status == Ok {
      var k := LineFound(r);
      UrlOfLine(r.ib, k);
    } else if p.status == Again {
      assert r.ib[..|r.ib|] == r.ib;
    }
  }

  /** Whatever stage it is in, a handler leaves a request that can go on. */
  lemma CallKeepsWaiting(w: World, r: Request)
    requires Waiting(r)
    ensures var (ret, r1) := Call(w, r);
            ret != FAULT && r1.handler != NoHandler ==> Waiting(r1)
  {
    hide Run, WellFormed, HandleRequestLine, HandleHeaders;
    match r.handler
    case OnRequestLine => RequestLineKeepsWaiting(w, r);
    case OnHeaders =>
      if HandleHeaders(w, r).0 == OK {
        HeadersOnLonger(w, r, "");
      } else {
        HeadersResume(w, r, "");
      }
    case OnBody =>
  }

  /** A stage that has asked for more goes on as if it had never stopped. */
  lemma CallResumes(w: World, r: Request, c: string)
    requires Waiting(r) && Call(w, r).0 == AGAIN && Call(w, r).1.handler == r.handler
    ensures var r1 := Call(w, r).1;
            && Ready(r1.ib + c, r1.ar) && Ready(r.ib + c, r.ar)
            && Same(Call(w, Plus(r1, c)), Call(w, Plus(r, c)))
  {
    hide Run, WellFormed, HandleRequestLine, HandleHeaders, HandleBody;
    match r.handler
    case OnRequestLine => RequestLineResumes(w, r, c);
    case OnHeaders => HeadersResume(w, r, c);
    case OnBody => BodyResumes(w, r, c);
  }

  /** A stage that is through does not look at the bytes behind it. */
  lemma CallOnLonger(w: World, r: Request, c: string)
    requires Waiting(r) && Call(w, r).0 == OK
    ensures Ready(r.ib + c, r.ar)
    ensures var (ret, r') := Call(w, Plus(r, c));
            && ret == OK && r'.handler == Call(w, r).1.handler
            && Outcome(r') == Outcome(Call(w, r).1) && r'.ib == Call(w, r).1.ib + c
            && (r'.handler != NoHandler ==> r' == Plus(Call(w, r).1, c))
  {
    hide Run, WellFormed, HandleRequestLine, HandleHeaders, HandleBody, Outcome;
    OutcomeForgets(Call(w, r).1, c);
    match r.handler
    case OnRequestLine => RequestLineOnLonger(w, r, c);
    case OnHeaders => HeadersOnLonger(w, r, c);
    case OnBody => BodyOnLonger(w, r, c);
  }

  lemma FaultOnLonger(w: World, r: Request, c: string)
    requires Waiting(r) && Call(w, r).0 == FAULT
    ensures Ready(r.ib + c, r.ar) && Call(w, Plus(r, c)).0 == FAULT
  {
    hide Run, WellFormed, LineAt, LineArchive, AfterRequestLine;
    RunOnLongerBuffer(RequestLine, r.ib, c, r.ar.nextParsePos, r.ar);
    var k := LineFound(r);
    UrlOfLine(r.ib, k);
    var r1 := r.(ar := LineArchive(r.ib, k));
    FaultsWithoutPath(w, r1);
    FaultsWithoutPath(w, Plus(r1, c));
  }

  /** One visit to a handler that ends in AGAIN, then another with more bytes, is one visit with all the bytes. */
  lemma {:induction false} DriveResumes(w: World, r: Request, c: string)
    requires Waiting(r) && Drive(w, r).0 == AGAIN && Drive(w, r).1.handler != NoHandler
    ensures var r1 := Drive(w, r).1;
            && Waiting(r1) && Ready(r1.ib + c, r1.ar) && Ready(r.ib + c, r.ar)
            && Same(Drive(w, Plus(r1, c)), Drive(w, Plus(r, c)))
    decreases Rank(r.handler)
  {
    hide Call, WellFormed, Waiting, Run;
    WaitingIsReady(r);
    var (ret, r1) := Call(w, r);
    CallKeepsWaiting(w, r);
    if ret == AGAIN {
      CallResumes(w, r, c);
    } else {
      CallOnLonger(w, r, c);
      DriveResumes(w, r1, c);
    }
  }

  lemma WaitingIsReady(r: Request)
    requires Waiting(r)
    ensures r.handler != NoHandler && Ready(r.ib, r.ar)
  {
  }

  /** A request that is answered, or that faults, does so whatever follows it. */
  lemma {:induction false} DriveOnLonger(w: World, r: Request, c: string)
    requires Waiting(r) && Drive(w, r).0 != AGAIN
    ensures Ready(r.ib + c, r.ar)
    ensures Drive(w, Plus(r, c)).0 == Drive(w, r).0
    ensures Drive(w, r).0 == OK ==>
              Outcome(Drive(w, Plus(r, c)).1) == Outcome(Drive(w, r).1)
                && Drive(w, Plus(r, c)).1.ib == Drive(w, r).1.ib + c
    decreases Rank(r.handler)
  {
    hide Call, WellFormed, Waiting, Run, Outcome;
    WaitingIsReady(r);
    var (ret, r1) := Call(w, r);
    CallKeepsWaiting(w, r);
    if ret == FAULT {
      FaultOnLonger(w, r, c);
    } else {
      CallOnLonger(w, r, c);
      if r1.handler != NoHandler {
        DriveOnLonger(w, r1, c);
      }
    }
  }

  // ---------- chunk independence of the pipeline ----------

  /** A header callback assembled an error but the header loop then ran out of bytes: AGAIN with no handler. */
  predicate Stalled(res: (Ret, Request)) {
    res.0 == AGAIN && res.1.handler == NoHandler
  }

  /**
   * The chunks arrive one visit at a time; no more bytes are taken once the request is answered or input is disarmed.
   */
  ghost function Feed(w: World, r: Request, chunks: seq<string>): (Ret, Request)
    requires Waiting(r) && chunks != []
    decreases |chunks|
  {
    WaitingOnLonger(r, chunks[0]);
    var (ret, r1) := Drive(w, Plus(r, chunks[0]));
    if ret == AGAIN && r1.handler != NoHandler && |chunks| > 1 then
      DriveResumes(w, Plus(r, chunks[0]), "");
      Feed(w, r1, chunks[1..])
    else (ret, r1)
  }

  lemma FirstChunk(r: Request, chunks: seq<string>)
    requires Waiting(r) && chunks != []
    ensures Waiting(Plus(r, chunks[0])) && Waiting(Plus(r, Concat(chunks)))
    ensures Plus(r, Concat(chunks)) == Plus(Plus(r, chunks[0]), Concat(chunks[1..]))
    ensures Ready(r.ib + Concat(chunks), r.ar)
  {
    WaitingOnLonger(r, chunks[0]);
    WaitingOnLonger(r, Concat(chunks));
    assert r.ib + (chunks[0] + Concat(chunks[1..])) == (r.ib + chunks[0]) + Concat(chunks[1..]);
  }

  /**
   * For every way of cutting the bytes, unless the run stalls: the request ends the same way, with the same status
   * code, method, URL, header slots, keep-alive choice, response text and interest mask, as when all the bytes come at
   * once.
   */
  lemma {:induction false} PipelineIgnoresCuts(w: World, r: Request, chunks: seq<string>)
    requires Waiting(r) && chunks != []
    ensures Waiting(Plus(r, Concat(chunks)))
    ensures var cut, whole := Feed(w, r, chunks), Drive(w, Plus(r, Concat(chunks)));
            !Stalled(cut) ==>
              cut.0 == whole.0 && (cut.0 != FAULT ==> Outcome(cut.1) == Outcome(whole.1) && cut.1.ib <= whole.1.ib)
    decreases |chunks|
  {
    FirstChunk(r, chunks);
    var r0, rest := Plus(r, chunks[0]), Concat(chunks[1..]);
    var (ret, r1) := Drive(w, r0);
    hide Drive, Waiting;
    if ret != AGAIN {
      DriveOnLonger(w, r0, rest);
    } else if r1.handler != NoHandler {
      DriveResumes(w, r0, rest);
      if |chunks| > 1 {
        DriveResumes(w, r0, "");
        PipelineIgnoresCuts(w, r1, chunks[1..]);
      } else {
        assert r0.ib + rest == r0.ib;
      }
    }
  }

  // ---------- without an error no cut matters ----------

  lemma OnHeaderKeepsError(w: World, r: Request)
    ensures r.errReq ==> OnHeader(w, r).errReq
    ensures OnHeader(w, r).handler != r.handler ==> OnHeader(w, r).errReq
  {
    hide Lookup, Text, Lowered, CaseEqual, Coding;
  }

  /** The mark of an error is never taken back, and only an error leaves the header stage without a handler. */
  lemma {:induction false} HeadersKeepError(w: World, r: Request)
    requires Ready(r.ib, r.ar) && (r.handler == NoHandler ==> r.errReq)
    ensures var r1 := HandleHeaders(w, r).1;
            (r.errReq ==> r1.errReq) && (r1.handler == NoHandler ==> r1.errReq)
    decreases |r.ib| - r.ar.nextParsePos
  {
    hide OnHeader, WellFormed, Run;
    var p := Parse(HeaderLine, r.ib, r.ar);
    if p.status == Ok {
      var r0 := r.(ar := p.ar);
      ReadyAfterHeader(w, r0);
      OnHeaderKeepsError(w, r0);
      HeadersKeepError(w, OnHeader(w, r0));
    }
  }

  lemma BodyKeepsError(w: World, r: Request)
    requires Ready(r.ib, r.ar) && r.errReq
    ensures HandleBody(w, r).1.errReq
  {
    hide MimeText, WellFormed;
  }

  lemma StalledHeadersOnLonger(w: World, r: Request, c: string)
    requires Waiting(r) && r.handler == OnHeaders && Stalled(HandleHeaders(w, r))
    ensures Ready(r.ib + c, r.ar) && Drive(w, Plus(r, c)).1.errReq
  {
    hide Run, WellFormed, HandleHeaders, HandleBody;
    HeadersKeepError(w, r);
    HeadersResume(w, r, c);
    HeadersKeepError(w, Plus(HandleHeaders(w, r).1, c));
    var (ret, r1) := HandleHeaders(w, Plus(r, c));
    if ret == OK && r1.handler != NoHandler {
      BodyKeepsError(w, r1);
    }
  }

  /** A visit that stalls has met a refused header, and so has the visit with more bytes. */
  lemma {:induction false} StalledOnLonger(w: World, r: Request, c: string)
    requires Waiting(r) && Stalled(Drive(w, r))
    ensures Ready(r.ib + c, r.ar) && Drive(w, Plus(r, c)).1.errReq
    decreases Rank(r.handler)
  {
    hide HandleRequestLine, HandleHeaders, HandleBody, WellFormed, Waiting, Run;
    WaitingIsReady(r);
    var (ret, r1) := Call(w, r);
    CallKeepsWaiting(w, r);
    if ret == OK {
      CallOnLonger(w, r, c);
      StalledOnLonger(w, r1, c);
    } else if r.handler == OnHeaders {
      StalledHeadersOnLonger(w, r, c);
    }
  }

  lemma {:induction false} StalledMeansError(w: World, r: Request, chunks: seq<string>)
    requires Waiting(r) && chunks != [] && Stalled(Feed(w, r, chunks))
    ensures Waiting(Plus(r, Concat(chunks))) && Drive(w, Plus(r, Concat(chunks))).1.errReq
    decreases |chunks|
  {
    hide Drive, Waiting, WellFormed, Rank, Concat;
    FirstChunk(r, chunks);
    WaitingIsReady(Plus(r, chunks[0]));
    var r0, rest := Plus(r, chunks[0]), Concat(chunks[1..]);
    var (ret, r1) := Drive(w, r0);
    if Stalled((ret, r1)) {
      StalledOnLonger(w, r0, rest);
    } else {
      DriveResumes(w, r0, rest);
      DriveResumes(w, r0, "");
      StalledMeansError(w, r1, chunks[1..]);
    }
  }

  /** A request whose bytes, taken at once, are not answered with an error ends the same way however they are cut. */
  lemma CutsDoNotMatter(w: World, r: Request, chunks: seq<string>)
    requires Waiting(r) && chunks != []
    requires Ready(r.ib + Concat(chunks), r.ar) && !Drive(w, Plus(r, Concat(chunks))).1.errReq
    ensures var cut, whole := Feed(w, r, chunks), Drive(w, Plus(r, Concat(chunks)));
            cut.0 == whole.0 && (cut.0 != FAULT ==> Outcome(cut.1) == Outcome(whole.1) && cut.1.ib <= whole.1.ib)
  {
    PipelineIgnoresCuts(w, r, chunks);
    if Stalled(Feed(w, r, chunks)) {
      StalledMeansError(w, r, chunks);
    }
  }

  // ---------- the slices of a request point into its bytes ----------

  predicate SlotsInside(r: Request) {
    forall name | name in r.slots :: Inside(|r.ib|, r.slots[name])
  }

  /** The header slots, and past the request line the parts of the URL. */
  predicate SlicesInside(r: Request) {
    SlotsInside(r) && (r.handler != OnRequestLine && !r.errReq ==> UrlInside(|r.ib|, r.ar.url))
  }

  lemma OnHeaderKeepsSlots(w: World, r: Request)
    requires SlotsInside(r) && Inside(|r.ib|, r.ar.headerValue)
    ensures SlotsInside(OnHeader(w, r))
  {
    OnHeaderSlots(w, r);
    hide OnHeader, Lookup, Text, Lowered, Inside;
  }

  lemma OnHeaderSlots(w: World, r: Request)
    ensures var name, r1 := Text(Lowered(r.ib, r.ar.headerName), r.ar.headerName), OnHeader(w, r);
            |r1.ib| == |r.ib| && (r1.slots == r.slots || r1.slots == r.slots[name := r.ar.headerValue])
  {
    hide Lookup, Text, Lowered, CaseEqual, Coding;
  }

  lemma {:induction false} HeadersKeepSlots(w: World, r: Request)
    requires Ready(r.ib, r.ar) && SlotsInside(r)
    ensures var r1 := HandleHeaders(w, r).1;
            SlotsInside(r1) && r1.ar.url == r.ar.url && (r.errReq ==> r1.errReq)
    decreases |r.ib| - r.ar.nextParsePos
  {
    hide OnHeader, WellFormed, Run, SlotsInside;
    var p := Parse(HeaderLine, r.ib, r.ar);
    var r0 := r.(ar := p.ar);
    SameSlots(r, r0);
    if p.status == Ok {
      ReadyAfterHeader(w, r0);
      OnHeaderKeepsError(w, r0);
      OnHeaderKeepsSlots(w, r0);
      HeadersKeepSlots(w, OnHeader(w, r0));
    } else {
      SameSlots(r, HandleHeaders(w, r).1);
    }
  }

  lemma SameSlots(r: Request, r': Request)
    requires SlotsInside(r) && r'.slots == r.slots && |r'.ib| == |r.ib|
    ensures SlotsInside(r')
  {
  }

  lemma LineKeepsSlices(w: World, r: Request)
    requires Waiting(r) && r.handler == OnRequestLine && SlicesInside(r)
    ensures HandleRequestLine(w, r).0 != FAULT ==> SlicesInside(HandleRequestLine(w, r).1)
  {
    hide Run, WellFormed, ErrResponse, LineAt, LineArchive, AfterRequestLine, SlotsInside, UrlInside;
    var (ret, r1) := HandleRequestLine(w, r);
    AfterLineKeepsSlots(w, r.(ar := Parse(RequestLine, r.ib, r.ar).ar));
    ErrKeepsSlots(w, r.(ar := Parse(RequestLine, r.ib, r.ar).ar), 400);
    SameSlots(r, r1);
    if Parse(RequestLine, r.ib, r.ar).status == Ok {
      var k := LineFound(r);
      UrlOfLine(r.ib, k);
    }
  }

  lemma ErrKeepsSlots(w: World, r: Request, code: int)
    ensures ErrResponse(w, r, code).slots == r.slots && ErrResponse(w, r, code).errReq
  {
  }

  lemma AfterLineKeepsSlots(w: World, r: Request)
    ensures AfterRequestLine(w, r).1.slots == r.slots
  {
    hide PathEnd, RelativePath, ErrResponse;
    forall x, code
      ensures ErrResponse(w, x, code).slots == x.slots
    {
      ErrKeepsSlots(w, x, code);
    }
  }

  lemma CallKeepsSlices(w: World, r: Request)
    requires Waiting(r) && SlicesInside(r)
    ensures Call(w, r).0 != FAULT ==> SlicesInside(Call(w, r).1)
  {
    hide HandleRequestLine, HandleHeaders, WellFormed, SlotsInside, Run, UrlInside;
    match r.handler
    case OnRequestLine => LineKeepsSlices(w, r);
    case OnHeaders => HeadersKeepSlots(w, r);
    case OnBody => SameSlots(r, HandleBody(w, r).1);
  }

  lemma {:induction false} DriveKeepsSlices(w: World, r: Request)
    requires Waiting(r) && SlicesInside(r)
    ensures Drive(w, r).0 != FAULT ==> SlicesInside(Drive(w, r).1)
    decreases Rank(r.handler)
  {
    hide Call, WellFormed, Waiting, SlicesInside;
    WaitingIsReady(r);
    CallKeepsWaiting(w, r);
    CallKeepsSlices(w, r);
    var (ret, r1) := Call(w, r);
    if ret == OK && r1.handler != NoHandler {
      DriveKeepsSlices(w, r1);
    }
  }

  lemma SlicesOnLonger(r: Request, c: string)
    requires SlicesInside(r)
    ensures SlicesInside(Plus(r, c))
  {
  }

  lemma {:induction false} FeedKeepsSlices(w: World, r: Request, chunks: seq<string>)
    requires Waiting(r) && SlicesInside(r) && chunks != []
    ensures Feed(w, r, chunks).0 != FAULT ==> SlicesInside(Feed(w, r, chunks).1)
    decreases |chunks|
  {
    hide Drive, WellFormed, Waiting, SlicesInside, Rank;
    WaitingOnLonger(r, chunks[0]);
    WaitingIsReady(Plus(r, chunks[0]));
    SlicesOnLonger(r, chunks[0]);
    DriveKeepsSlices(w, Plus(r, chunks[0]));
    var (ret, r1) := Drive(w, Plus(r, chunks[0]));
    if ret == AGAIN && r1.handler != NoHandler && |chunks| > 1 {
      DriveResumes(w, Plus(r, chunks[0]), "");
      FeedKeepsSlices(w, r1, chunks[1..]);
    }
  }

  lemma FreshIsWaiting()
    ensures Waiting(FRESH)
  {
  }

  // ---------- where the handlers write ----------

  /** The bytes from p on are as they were. */
  predicate TailKept(b: string, b': string, p: int) {
    |b'| == |b| && forall i | 0 <= i < |b| && p <= i :: b'[i] == b[i]
  }

  /** The NUL that ends the path lands before the parse position. */
  lemma RequestLineWritesBehindParser(w: World, r: Request)
    requires History(r) && r.handler == OnRequestLine
    ensures var r1 := HandleRequestLine(w, r).1;
            TailKept(r.ib, r1.ib, r1.ar.nextParsePos)
  {
    hide Run, WellFormed, CString;
    var p := Parse(RequestLine, r.ib, r.ar);
    if p.status == Ok {
      hide LineAt, LineArchive;
      var k := LineFound(r);
      UrlOfLine(r.ib, k);
      PathBeforeEnd(r.ib, k);
      AfterRequestLineWrites(w, r.(ar := p.ar));
      hide PathEnd, AfterRequestLine;
      var r1 := AfterRequestLine(w, r.(ar := p.ar)).1;
      assert TailKept(r.ib, r1.ib, p.ar.nextParsePos);
    }
  }

  lemma PathBeforeEnd(b: string, k: RequestLineGrammar.Cuts)
    requires LineAt(b, k)
    ensures UrlInside(k.e + 1, LineArchive(b, k).url) && k.e < LineArchive(b, k).nextParsePos
  {
    hide SplitUrl, Value, MethodNamed;
  }

  lemma AfterRequestLineWrites(w: World, r: Request)
    ensures var (ret, r1) := AfterRequestLine(w, r);
            && r1.ar == r.ar && |r1.ib| == |r.ib|
            && forall i | 0 <= i < |r.ib| && PathEnd(r.ib, r.ar.url.absPath) != Some(i) :: r1.ib[i] == r.ib[i]
  {
    hide CString, PathEnd;
  }

  /** Every lower-cased name lies before the parse position, which never goes back. */
  lemma {:induction false} HeadersWriteBehindParser(w: World, r: Request)
    requires Ready(r.ib, r.ar)
    ensures var r1 := HandleHeaders(w, r).1;
            && r.ar.nextParsePos <= r1.ar.nextParsePos
            && TailKept(r.ib, r1.ib, r1.ar.nextParsePos)
    decreases |r.ib| - r.ar.nextParsePos
  {
    hide OnHeader, WellFormed, Run;
    var p := Parse(HeaderLine, r.ib, r.ar);
    if p.status == Ok {
      var r1 := r.(ar := p.ar);
      ReadyAfterHeader(w, r1);
      OnHeaderWrites(w, r1);
      HeadersWriteBehindParser(w, OnHeader(w, r1));
      assert TailKept(r.ib, OnHeader(w, r1).ib, p.ar.nextParsePos);
    }
  }

  lemma OnHeaderWrites(w: World, r: Request)
    ensures var r1 := OnHeader(w, r);
            r1.ar.nextParsePos == r.ar.nextParsePos && r1.ib == Lowered(r.ib, r.ar.headerName)
  {
    hide Lookup, Text, CaseEqual, Coding;
  }
}
