// What every visit with the first bytes of a request is answered with, whatever these bytes are: the cases are told
// apart by the grammars of the request line and of the header lines, and by the file.
module Visits {
  import opened Common
  import opened HttpParser
  import opened Request
  import opened HeaderMeaning
  import opened RequestMeaning
  import opened Stalls
  import opened CutIndependence
  import opened ConnectionRun
  import opened Exchanges
  import C = ChunkIndependence
  import E = EndToEnd
  import H = HeaderGrammar
  import L = RequestLineGrammar
  import Response

  // ---------- the request line ----------

  ghost predicate Broken(b: string) {
    exists k, j, q :: L.BrokenAt(b, k, j, q)
  }

  ghost predicate Unserved(b: string, k: L.Cuts) {
    L.LineAt(b, k) && (L.LineVersion(b, k).major > 1 || L.LineVersion(b, k).minor > 1)
  }

  /** The URL is ended by a TAB and holds no '?': it has no path. */
  ghost predicate Pathless(b: string, k: L.Cuts) {
    L.LineAt(b, k) && !Unserved(b, k) && b[k.e] == '\t' && '?' !in b[k.u..k.e]
  }

  /** The minor version, as far as it has been read. */
  function MinorRead(b: string): nat {
    FreshIsReady(b);
    Parse(RequestLine, b, INIT).ar.version.minor
  }

  lemma LineAnswers(w: World, b: string)
    requires Ready(b, INIT) && HandleRequestLine(w, New(b)).1.handler == NoHandler
             && HandleRequestLine(w, New(b)).0 == OK
    ensures AtOnce(w, b) == HandleRequestLine(w, New(b))
  {
    hide HandleRequestLine, Drive, WellFormed;
    DriveThroughLine(w, New(b));
  }

  /** A broken request line is answered with 400. */
  lemma BrokenLineIsAnswered(w: World, b: string)
    requires Broken(b)
    ensures ErrorAnswer(w, MinorRead(b), 400, AtOnce(w, b).0, AtOnce(w, b).1)
  {
    FreshIsReady(b);
    L.InvalidExactlyWhen(b);
    hide Run, WellFormed, ErrResponse, ErrorAnswer, AfterRequestLine, L.BrokenAt, Drive;
    var r := New(b).(ar := Parse(RequestLine, b, INIT).ar);
    OnlyError(w, r, 400);
    LineAnswers(w, b);
  }

  /** A version that is not served is answered with 505. */
  lemma UnservedIsAnswered(w: World, b: string, k: L.Cuts)
    requires Unserved(b, k)
    ensures ErrorAnswer(w, L.LineVersion(b, k).minor, 505, AtOnce(w, b).0, AtOnce(w, b).1)
  {
    LineIsFound(b, k);
    LineLeaves(b, k);
    hide Run, WellFormed, ErrResponse, ErrorAnswer, L.LineAt, L.LineVersion, L.LineArchive, Drive, PathEnd,
         RelativePath, WithFile;
    OnlyError(w, New(b).(ar := L.LineArchive(b, k)), 505);
    LineAnswers(w, b);
  }

  /** A URL without a path makes the handler follow a wild pointer. */
  lemma PathlessFaults(w: World, b: string, k: L.Cuts)
    requires Pathless(b, k)
    ensures AtOnce(w, b).0 == FAULT
  {
    FreshIsReady(b);
    NewHasHistory(b);
    E.FaultsExactlyWhen(w, New(b), k);
    hide Run, WellFormed, HandleRequestLine, L.LineAt, L.LineVersion;
  }

  lemma EndOfUrl(b: string, k: L.Cuts)
    requires L.LineAt(b, k)
    ensures k.u < k.e < |b| && (b[k.e] == ' ' || b[k.e] == '\t')
  {
    hide L.MethodPart, L.NumberPart;
  }

  /** An unfinished request line is kept, and the request asks for more. */
  lemma OpenLineWaits(w: World, b: string, k: L.Cuts, j: nat)
    requires L.OpenAt(b, k, j)
    ensures Ready(b, INIT) && AtOnce(w, b) == (AGAIN, New(b).(ar := Parse(RequestLine, b, INIT).ar))
  {
    FreshIsReady(b);
    L.InvalidExactlyWhen(b);
    hide Run, WellFormed, ErrResponse, AfterRequestLine, L.OpenAt;
  }

  // ---------- the header lines ----------

  lemma HeaderStepKeepsLine(p: nat, ch: char, a: Archive)
    requires WellFormed(p, a)
    ensures KeepsRequestLine(a, HeaderLineStep(p, ch, a).ar)
            && HeaderLineStep(p, ch, a).ar.contentLength == a.contentLength
  {
    hide WellFormed;
  }

  /** The header parser leaves what the request line gave, and the announced length. */
  lemma {:induction false} HeaderRunKeepsLine(b: string, p: nat, a: Archive)
    requires p <= |b| && WellFormed(p, a)
    ensures var a' := Run(HeaderLine, b, p, a).ar;
            KeepsRequestLine(a, a') && a'.contentLength == a.contentLength
    decreases |b| - p
  {
    if p < |b| {
      HeaderStepKeepsLine(p, b[p], a);
      assert b[..p + 1][p] == b[p];
      hide WellFormed, HeaderLineStep;
      var s := Step(HeaderLine, b[..p + 1], a);
      if s.verdict == More {
        HeaderRunKeepsLine(b, p + 1, s.ar);
      }
    }
  }

  /** The request behind the header lines ks, with what they have settled; the parser may have gone further. */
  ghost predicate Behind(w: World, b: string, k: L.Cuts, ks: seq<H.Cuts>, f: File, r: Request)
    requires L.LineAt(b, k) && f != Missing
  {
    var m, refused := MarksAfter(w, b, k, ks), !AllAccepted(w, b, ks);
    && LineAnswered(b, k, ks, f, r)
    && r.keepAlive == m.keepAlive && r.transferEncoding == m.coding && r.ar.contentLength == m.length
    && r.statusCode == m.code && r.out == FRESH.out.(ob := m.pages)
    && r.errReq == r.responseDone == refused && r.ev == Interest(!refused, refused)
    && r.handler == (if refused then NoHandler else OnHeaders)
  }

  /** Lines of a request whose file was found, through the handler. */
  lemma LinesAreHandled(w: World, b: string, k: L.Cuts, ks: seq<H.Cuts>) returns (r: Request)
    requires Servable(b, k) && FileAsked(w, b, k) != Missing && H.LinesAt(b, k.r + 2, ks)
    ensures H.LineStart(r.ib, r.ar) && r.ar.nextParsePos == H.LinesEnd(k.r + 2, ks)
    ensures E.TailKept(b, r.ib, r.ar.nextParsePos) && L.LineAt(b, k)
    ensures Behind(w, b, k, ks, FileAsked(w, b, k), r)
    ensures AtOnce(w, b) == (if HandleHeaders(w, r).0 == OK && HandleHeaders(w, r).1.handler == OnBody
                             then HandleBody(w, HandleHeaders(w, r).1) else HandleHeaders(w, r))
  {
    hide Drive, HandleRequestLine, HandleHeaders, HandleBody, WellFormed, FileAsked, Servable, Run, L.LineAt,
         L.LineVersion, H.LinesAt, E.TailKept, BlockMeaning, HeadKept, LineHandled, HeadersHandled, LineAnswered,
         H.LinesEnd, Behind;
    var p := k.r + 2;
    var r0 := LineIsPassed(w, b, k);
    FoundIsHandled(w, b, k);
    LinesOnTail(b, r0.ib, p, p, ks);
    MeaningOnTail(w, 0, b, r0.ib, p, p, ks, FirstMarks(Version(0, 0)));
    r := LinesArePassed(w, r0, ks);
    TailsInTurn(b, r0.ib, r.ib, p, r.ar.nextParsePos);
    var x := r.(handler := OnBody);
    HandlerIsFree(w, r0, ks, r);
    MeaningAfterLine(w, b, k, ks, FileAsked(w, b, k), r0, x);
    HandledIsBehind(w, b, k, ks, FileAsked(w, b, k), r);
    HeadersThenBody(w, r0);
  }

  lemma HandlerIsFree(w: World, r: Request, ks: seq<H.Cuts>, r': Request)
    requires BlockMeaning(w, r, ks, r')
    ensures BlockMeaning(w, r, ks, r'.(handler := OnBody))
  {
    hide AfterLines, AllAccepted, SlotsFilled, ValuesKept;
  }

  lemma HandledIsBehind(w: World, b: string, k: L.Cuts, ks: seq<H.Cuts>, f: File, r: Request)
    requires L.LineAt(b, k) && f != Missing && HeadersHandled(w, b, k, ks, f, r.(handler := OnBody))
    requires r.handler == if AllAccepted(w, b, ks) then OnHeaders else NoHandler
    ensures Behind(w, b, k, ks, f, r)
  {
    hide L.LineAt, L.LineVersion, AfterLines, AllAccepted, SlotsFilled, Serves, UrlOf, Text, L.MethodName;
  }

  lemma HeadersThenBody(w: World, r: Request)
    requires Ready(r.ib, r.ar) && r.handler == OnHeaders
    ensures Drive(w, r) == (if HandleHeaders(w, r).0 == OK && HandleHeaders(w, r).1.handler == OnBody
                            then HandleBody(w, HandleHeaders(w, r).1) else HandleHeaders(w, r))
  {
    hide HandleHeaders, HandleBody, WellFormed;
  }

  lemma TailsInTurn(b: string, b1: string, b2: string, p: int, p': int)
    requires E.TailKept(b, b1, p) && E.TailKept(b1, b2, p') && p <= p'
    ensures E.TailKept(b, b2, p')
  {
  }

  /** A request line that can be served, for a file that is there, and header lines. */
  ghost predicate LinesAsked(w: World, b: string, k: L.Cuts, ks: seq<H.Cuts>) {
    Servable(b, k) && FileAsked(w, b, k) != Missing && H.LinesAt(b, k.r + 2, ks)
  }

  ghost predicate BrokenHeader(b: string, s: nat) {
    exists h, q :: H.BrokenAt(b, s, h, q)
  }

  ghost predicate BlankLine(b: string, s: nat) {
    exists e: nat :: H.BlankLineAt(b, s, e)
  }

  /** A header line that is broken adds an error response with 400 to the pages of those before it. */
  ghost predicate BrokenAnswer(w: World, b: string, k: L.Cuts, ks: seq<H.Cuts>, ret: Ret, r': Request)
    requires Servable(b, k) && FileAsked(w, b, k) != Missing
  {
    && LineAnswered(b, k, ks, FileAsked(w, b, k), r')
    && ret == OK && r'.statusCode == 400 && r'.errReq && r'.responseDone && !r'.keepAlive
    && r'.handler == NoHandler && r'.ev == Interest(false, true)
    && r'.out == FRESH.out.(ob := MarksAfter(w, b, k, ks).pages + ErrorPage(w, L.LineVersion(b, k).minor, 400))
  }

  lemma BehindIsKept(w: World, b: string, k: L.Cuts, ks: seq<H.Cuts>, f: File, r: Request, a: Archive)
    requires L.LineAt(b, k) && f != Missing && Behind(w, b, k, ks, f, r)
    requires KeepsRequestLine(r.ar, a) && a.contentLength == r.ar.contentLength
    ensures Behind(w, b, k, ks, f, r.(ar := a)) && LineAnswered(b, k, ks, f, r.(ar := a))
    ensures a.version == L.LineVersion(b, k)
  {
    hide L.LineAt, L.LineVersion, AfterLines, AllAccepted, SlotsFilled, Serves, UrlOf, Text, L.MethodName;
  }

  lemma BrokenHeaderIsAnswered(w: World, b: string, k: L.Cuts, ks: seq<H.Cuts>)
    requires LinesAsked(w, b, k, ks) && BrokenHeader(b, H.LinesEnd(k.r + 2, ks))
    ensures BrokenAnswer(w, b, k, ks, AtOnce(w, b).0, AtOnce(w, b).1)
  {
    hide AtOnce, HandleBody, WellFormed, FileAsked, Servable, Run, H.LinesAt, E.TailKept, H.BrokenAt, H.LinesEnd,
         Behind, L.LineAt, L.LineVersion, LineAnswered, ErrorPage, MarksAfter, OnHeader, ErrResponse;
    var r := LinesAreHandled(w, b, k, ks);
    var s := r.ar.nextParsePos;
    var h, q :| H.BrokenAt(b, s, h, q);
    BrokenOnTail(b, r.ib, s, s, h, q);
    H.InvalidExactlyWhen(r.ib, r.ar);
    var a := Parse(HeaderLine, r.ib, r.ar).ar;
    HeaderRunKeepsLine(r.ib, s, r.ar);
    BehindIsKept(w, b, k, ks, FileAsked(w, b, k), r, a);
    ErrorMarks(w, r.(ar := a), 400);
    BrokenShows(w, b, k, ks, r.(ar := a));
  }

  lemma BrokenShows(w: World, b: string, k: L.Cuts, ks: seq<H.Cuts>, r: Request)
    requires Servable(b, k) && FileAsked(w, b, k) != Missing
    requires Behind(w, b, k, ks, FileAsked(w, b, k), r)
    ensures BrokenAnswer(w, b, k, ks, OK, ErrResponse(w, r, 400))
  {
    hide Servable, FileAsked, L.LineAt, L.LineVersion, AfterLines, AllAccepted, SlotsFilled, Serves, UrlOf, Text,
         L.MethodName;
  }

  /** Without another line, a break or a blank line, the request waits for more, with what the lines have settled. */
  lemma HeadersWait(w: World, b: string, k: L.Cuts, ks: seq<H.Cuts>)
    requires LinesAsked(w, b, k, ks)
    requires var s := H.LinesEnd(k.r + 2, ks); NoLineAt(b, s) && !BrokenHeader(b, s) && !BlankLine(b, s)
    ensures AtOnce(w, b).0 == AGAIN && Behind(w, b, k, ks, FileAsked(w, b, k), AtOnce(w, b).1)
  {
    hide AtOnce, HandleBody, WellFormed, FileAsked, Servable, Run, H.LinesAt, E.TailKept, H.BrokenAt, H.BlankLineAt,
         H.LinesEnd, Behind, L.LineAt, L.LineVersion, LineAnswered, OnHeader, ErrResponse, H.HeaderAt;
    var r := LinesAreHandled(w, b, k, ks);
    var s := r.ar.nextParsePos;
    TailsAgree(b, r.ib, s);
    NoLineOnTail(b, r.ib, s, s);
    H.InvalidExactlyWhen(r.ib, r.ar);
    H.AcceptsExactlyTheGrammar(r.ib, r.ar);
    if h, q :| H.BrokenAt(r.ib, s, h, q) {
      BrokenOnTail(r.ib, b, s, s, h, q);
    }
    if e: nat :| H.BlankLineAt(r.ib, s, e) {
      BlankOnTail(r.ib, b, s, s, e);
    }
    HeaderRunKeepsLine(r.ib, s, r.ar);
    BehindIsKept(w, b, k, ks, FileAsked(w, b, k), r, Parse(HeaderLine, r.ib, r.ar).ar);
  }

  // ---------- every visit ----------

  /** What comes behind the request line of a file that is there. */
  ghost predicate FileVisit(w: World, b: string, k: L.Cuts, ks: seq<H.Cuts>, ret: Ret, r': Request) {
    && LinesAsked(w, b, k, ks) && NoLineAt(b, H.LinesEnd(k.r + 2, ks))
    && LinesVisit(w, b, k, ks, ret, r')
  }

  /** What comes behind the header lines. */
  ghost predicate LinesVisit(w: World, b: string, k: L.Cuts, ks: seq<H.Cuts>, ret: Ret, r': Request)
    requires LinesAsked(w, b, k, ks)
  {
    var f, s := FileAsked(w, b, k), H.LinesEnd(k.r + 2, ks);
    if BrokenHeader(b, s) then BrokenAnswer(w, b, k, ks, ret, r')
    else if BlankLine(b, s) then exists e: nat :: H.BlankLineAt(b, s, e) && Answered(w, b, k, ks, e, f, ret, r')
    else ret == AGAIN && Behind(w, b, k, ks, f, r')
  }

  /** What comes of a request line. */
  ghost predicate LineVisit(w: World, b: string, k: L.Cuts, ret: Ret, r': Request)
    requires L.LineAt(b, k)
  {
    if Unserved(b, k) then ErrorAnswer(w, L.LineVersion(b, k).minor, 505, ret, r')
    else if Pathless(b, k) then ret == FAULT
    else
      && Servable(b, k)
      && if FileAsked(w, b, k) == Missing then ErrorAnswer(w, L.LineVersion(b, k).minor, 404, ret, r')
         else exists ks :: FileVisit(w, b, k, ks, ret, r')
  }

  /** What one visit with these bytes ends in, by the bytes and the file. */
  ghost predicate Visit(w: World, b: string, ret: Ret, r': Request) {
    if Broken(b) then ErrorAnswer(w, MinorRead(b), 400, ret, r')
    else if exists k :: L.LineAt(b, k) then exists k :: L.LineAt(b, k) && LineVisit(w, b, k, ret, r')
    else (exists k, j :: L.OpenAt(b, k, j)) && ret == AGAIN && r' == New(b).(ar := r'.ar)
  }

  /** Whatever the bytes are. */
  lemma EveryVisit(w: World, b: string)
    ensures Visit(w, b, AtOnce(w, b).0, AtOnce(w, b).1)
  {
    L.InvalidExactlyWhen(b);
    L.AcceptsExactlyTheGrammar(b);
    hide AtOnce, Run, L.BrokenAt, L.OpenAt, L.LineAt, LineVisit, ErrorAnswer;
    if Broken(b) {
      BrokenLineIsAnswered(w, b);
    } else if k :| L.LineAt(b, k) {
      EveryLine(w, b, k);
    } else {
      var k, j :| L.OpenAt(b, k, j);
      OpenLineWaits(w, b, k, j);
    }
  }

  lemma EveryLine(w: World, b: string, k: L.Cuts)
    requires L.LineAt(b, k)
    ensures LineVisit(w, b, k, AtOnce(w, b).0, AtOnce(w, b).1)
  {
    LineIsOneOf(b, k);
    hide AtOnce, L.LineAt, L.LineVersion, FileVisit, LinesAsked, ErrorAnswer, FileAsked, Servable, Pathless, Unserved,
         NoLineAt, H.LinesEnd, Drive;
    if Unserved(b, k) {
      UnservedIsAnswered(w, b, k);
    } else if Pathless(b, k) {
      PathlessFaults(w, b, k);
    } else if FileAsked(w, b, k) == Missing {
      MissingIsAnswered(w, b, k);
      AtOnceDrives(w, b);
    } else {
      EveryFound(w, b, k);
    }
  }

  lemma EveryFound(w: World, b: string, k: L.Cuts)
    requires Servable(b, k) && FileAsked(w, b, k) != Missing
    ensures exists ks :: FileVisit(w, b, k, ks, AtOnce(w, b).0, AtOnce(w, b).1)
  {
    hide AtOnce, FileVisit, FileAsked, Servable, H.LinesAt, NoLineAt, H.LinesEnd;
    ServableIsOrdered(b, k);
    var ks := AllLines(b, k.r + 2);
    EveryFile(w, b, k, ks);
  }

  lemma ServableIsOrdered(b: string, k: L.Cuts)
    requires Servable(b, k)
    ensures k.r + 2 <= |b|
  {
    LineIsOrdered(b, k);
  }

  lemma AtOnceDrives(w: World, b: string)
    ensures Ready(b, INIT) && AtOnce(w, b) == Drive(w, New(b))
  {
    FreshIsReady(b);
    hide Drive;
  }

  lemma LineIsOneOf(b: string, k: L.Cuts)
    requires L.LineAt(b, k)
    ensures Unserved(b, k) || Pathless(b, k) || Servable(b, k)
  {
    EndOfUrl(b, k);
    hide L.LineAt, L.LineVersion;
  }

  lemma EveryFile(w: World, b: string, k: L.Cuts, ks: seq<H.Cuts>)
    requires LinesAsked(w, b, k, ks) && NoLineAt(b, H.LinesEnd(k.r + 2, ks))
    ensures FileVisit(w, b, k, ks, AtOnce(w, b).0, AtOnce(w, b).1)
  {
    hide L.LineAt, Servable, H.LinesAt, NoLineAt, H.LinesEnd, H.BrokenAt, H.BlankLineAt, Answered, BrokenAnswer, Behind,
         FileAsked, Drive;
    var s := H.LinesEnd(k.r + 2, ks);
    if BrokenHeader(b, s) {
      BrokenHeaderIsAnswered(w, b, k, ks);
    } else if e: nat :| H.BlankLineAt(b, s, e) {
      RequestIsAnswered(w, b, k, ks, e);
    } else {
      HeadersWait(w, b, k, ks);
    }
  }

  // ---------- error answers, however the bytes are cut ----------

  lemma ErrorShowsInEnd(w: World, minor: nat, code: int, x: (Ret, Request), y: (Ret, Request))
    requires ErrorAnswer(w, minor, code, x.0, x.1) && SameEnd(y, x)
    ensures ErrorAnswer(w, minor, code, y.0, y.1)
  {
    var o := E.Outcome(x.1);
    assert o.statusCode == x.1.statusCode && o.errReq == x.1.errReq && o.responseDone == x.1.responseDone
           && o.keepAlive == x.1.keepAlive && o.handler == x.1.handler && o.ev == x.1.ev && o.slots == x.1.slots
           && o.file == x.1.file && o.out == x.1.out;
  }

  /** A broken request line, cut in any way. */
  lemma BrokenLineHoweverCut(w: World, b: string, chunks: seq<string>)
    requires CutOf(b, chunks) && Broken(b)
    ensures ErrorAnswer(w, MinorRead(b), 400, InChunks(w, chunks).0, InChunks(w, chunks).1)
  {
    hide AtOnce, InChunks, ErrorAnswer, FileAsked, SameEnd, Broken, Servable;
    BrokenIsNotServable(b);
    OthersIgnoreCuts(w, b, chunks);
    BrokenLineIsAnswered(w, b);
    ErrorShowsInEnd(w, MinorRead(b), 400, AtOnce(w, b), InChunks(w, chunks));
  }

  /** A version that is not served, cut in any way. */
  lemma UnservedHoweverCut(w: World, b: string, k: L.Cuts, chunks: seq<string>)
    requires CutOf(b, chunks) && Unserved(b, k)
    ensures ErrorAnswer(w, L.LineVersion(b, k).minor, 505, InChunks(w, chunks).0, InChunks(w, chunks).1)
  {
    hide AtOnce, InChunks, ErrorAnswer, FileAsked, SameEnd, L.LineAt, L.LineVersion, Servable;
    UnservedIsNotServable(b, k);
    OthersIgnoreCuts(w, b, chunks);
    UnservedIsAnswered(w, b, k);
    ErrorShowsInEnd(w, L.LineVersion(b, k).minor, 505, AtOnce(w, b), InChunks(w, chunks));
  }

  /** A path that leads to no file, cut in any way. */
  lemma MissingHoweverCut(w: World, b: string, k: L.Cuts, chunks: seq<string>)
    requires CutOf(b, chunks) && Servable(b, k) && FileAsked(w, b, k) == Missing
    ensures ErrorAnswer(w, L.LineVersion(b, k).minor, 404, InChunks(w, chunks).0, InChunks(w, chunks).1)
  {
    OneLineIsServable(b, k);
    hide AtOnce, InChunks, ErrorAnswer, FileAsked, SameEnd, L.LineAt, L.LineVersion, Drive;
    OthersIgnoreCuts(w, b, chunks);
    MissingIsAnswered(w, b, k);
    AtOnceDrives(w, b);
    ErrorShowsInEnd(w, L.LineVersion(b, k).minor, 404, AtOnce(w, b), InChunks(w, chunks));
  }

  lemma BrokenIsNotServable(b: string)
    requires Broken(b)
    ensures forall k :: !Servable(b, k)
  {
    hide L.LineAt, L.BrokenAt;
    var k', j, q :| L.BrokenAt(b, k', j, q);
    forall k | Servable(b, k)
      ensures false
    {
      L.BrokenIsNotDone(b, k', j, q, k);
    }
  }

  lemma UnservedIsNotServable(b: string, k: L.Cuts)
    requires Unserved(b, k)
    ensures forall k' :: !Servable(b, k')
  {
    hide L.LineAt, L.LineVersion;
    forall k' | Servable(b, k')
      ensures false
    {
      L.CutsAreUnique(b, k, k');
    }
  }

  lemma OneLineIsServable(b: string, k: L.Cuts)
    requires Servable(b, k)
    ensures forall k' | Servable(b, k') :: k' == k
  {
    hide L.LineAt, L.LineVersion;
    forall k' | Servable(b, k')
      ensures k' == k
    {
      L.CutsAreUnique(b, k, k');
    }
  }

  /** A broken header behind lines that are all accepted, cut in any way. */
  lemma BrokenHeaderHoweverCut(w: World, b: string, k: L.Cuts, ks: seq<H.Cuts>, chunks: seq<string>)
    requires CutOf(b, chunks) && LinesAsked(w, b, k, ks) && BrokenHeader(b, H.LinesEnd(k.r + 2, ks))
             && AllAccepted(w, b, ks)
    ensures SameEnd(InChunks(w, chunks), AtOnce(w, b))
    ensures BrokenAnswer(w, b, k, ks, AtOnce(w, b).0, AtOnce(w, b).1)
  {
    hide AtOnce, InChunks, SameEnd, FileAsked, Servable, H.LinesAt, AllAccepted, BrokenAnswer, H.BrokenAt, L.LineAt,
         H.LinesEnd, H.HeaderAt;
    BrokenHeaderIsAnswered(w, b, k, ks);
    StallsExactlyWhen(w, b);
    var s := H.LinesEnd(k.r + 2, ks);
    var h, q :| H.BrokenAt(b, s, h, q);
    forall h'
      ensures !H.HeaderAt(b, s, h')
    {
      H.BrokenIsNoHeader(b, s, h, q, h');
    }
    forall k', ks' | Refused(w, b, k', ks')
      ensures false
    {
      FrontIsAccepted(w, b, k, ks, k', ks');
    }
    SameUnlessStalled(w, b, chunks);
  }

  lemma FrontIsAccepted(w: World, b: string, k: L.Cuts, ks: seq<H.Cuts>, k': L.Cuts, ks': seq<H.Cuts>)
    requires LinesAsked(w, b, k, ks) && NoLineAt(b, H.LinesEnd(k.r + 2, ks)) && AllAccepted(w, b, ks)
    ensures !Refused(w, b, k', ks')
  {
    hide L.LineAt, FileAsked, Servable, H.LinesEnd, H.LinesAt, NoLineAt, AllAccepted, Refused, LinesAsked;
    AskedIsLine(w, b, k, ks);
    if Refused(w, b, k', ks') {
      RefusedIsLine(w, b, k', ks');
      L.CutsAreUnique(b, k, k');
      LinesAreFront(b, k.r + 2, ks', ks);
      RefusedLine(w, b, ks', ks);
    }
  }

  lemma AskedIsLine(w: World, b: string, k: L.Cuts, ks: seq<H.Cuts>)
    requires LinesAsked(w, b, k, ks)
    ensures L.LineAt(b, k) && H.LinesAt(b, k.r + 2, ks)
  {
    hide L.LineAt, L.LineVersion, H.LinesAt, FileAsked;
  }

  // ---------- error answers on the wire ----------

  /**
   * The socket gets a beginning of head and page, in this order, and all of it exactly when it takes it in one visit.
   */
  lemma ErrorReachesWire(w: World, minor: nat, code: int, r: Request, script: seq<Response.IoResult>)
    requires ErrorAnswer(w, minor, code, OK, r)
    ensures Response.OutOk(r)
    ensures var s, text := Response.ResponseHandle(r, script), w.render(ErrorHead(w, minor, code)) + w.page(code);
            && s.ret == ERROR && s.wire <= text
            && (s.wire == text <==> Response.Covers(script, |text|))
  {
    hide Response.ResponseHandle;
    Response.ErrorPageIsSentExactlyWhen(r, script);
    assert Response.BufferLeft(r) == r.out.ob;
  }

  /** The same in the life of a connection: the request in any chunks, then the one visit that the page is given. */
  lemma ErrorsOnTheWire(w: World, minor: nat, code: int, chunks: seq<string>, script: seq<Response.IoResult>)
    requires chunks != [] && ErrorAnswer(w, minor, code, InChunks(w, chunks).0, InChunks(w, chunks).1)
    requires MaskOk(FRESH) && Possible(FRESH, Reads(w, chunks) + [Writable(script)])
    ensures var l, text := Live(FRESH, Reads(w, chunks) + [Writable(script)]), w.render(ErrorHead(w, minor, code))
            + w.page(code);
            && l.Closed? && l.wire <= text
            && (l.wire == text <==> Response.Covers(script, |text|))
  {
    hide MaskOk, ErrorHead, ErrorAnswer, Response.Covers, Response.ResponseHandle, E.Feed, E.Waiting, Reads, Possible,
         Live;
    E.FreshIsWaiting();
    var r := InChunks(w, chunks).1;
    ErrorIsWritten(w, minor, code, InChunks(w, chunks).0, r, script);
    LifeInParts(FRESH, Reads(w, chunks), [Writable(script)]);
    ReadsAreFed(w, FRESH, chunks);
    NothingBehind(Live(r, [Writable(script)]));
  }

  lemma ErrorIsWritten(w: World, minor: nat, code: int, ret: Ret, r: Request, script: seq<Response.IoResult>)
    requires ErrorAnswer(w, minor, code, ret, r)
    ensures ret == OK && !r.ev.input
    ensures MaskOk(r) && Possible(r, [Writable(script)])
    ensures var l, text := Live(r, [Writable(script)]), w.render(ErrorHead(w, minor, code)) + w.page(code);
            && l.Closed? && l.wire <= text
            && (l.wire == text <==> Response.Covers(script, |text|))
  {
    ErrorReachesWire(w, minor, code, r, script);
    assert [Writable(script)][1..] == [];
    hide Response.Covers, Response.ResponseHandle, ErrorHead;
  }
}
