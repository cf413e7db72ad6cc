// Inputs in full: a request that the main results speak of, and one on the failing side of each exact condition.
module Examples {
  import opened Common
  import opened HttpParser
  import opened Request
  import opened HeaderMeaning
  import opened RequestMeaning
  import opened Stalls
  import opened CutIndependence
  import opened Visits
  import opened TextLaws
  import opened ConnectionRun
  import opened Exchanges
  import C = ChunkIndependence
  import E = EndToEnd
  import H = HeaderGrammar
  import HeapOrder
  import L = RequestLineGrammar
  import Response

  const GET_ROOT: string := "GET / HTTP/1.1\r\n"
  const ROOT_LINE: L.Cuts := L.Cuts(3, 4, 5, 6, 12, 14)

  lemma RootLine()
    ensures L.LineAt(GET_ROOT, ROOT_LINE) && L.LineVersion(GET_ROOT, ROOT_LINE) == Version(1, 1)
  {
    assert GET_ROOT[..3] == "GET" == L.MethodName(GET);
    assert L.Value(GET_ROOT, 11, 12) == 1 && L.Value(GET_ROOT, 13, 14) == 1;
  }

  lemma RootPath()
    requires L.LineAt(GET_ROOT, ROOT_LINE)
    ensures Text(GET_ROOT, UrlOf(GET_ROOT, ROOT_LINE).absPath) == "/"
  {
    hide L.LineAt, LastMark;
    var v := GET_ROOT[..6];
    assert v[5] == ' ';
    assert FindEither(v, 5, 6, ' ', '?') == 5;
    assert GET_ROOT[4] == '/' && GET_ROOT[4..5] == [GET_ROOT[4]];
  }

  /** Whatever comes behind the line, it asks for the root directory itself. */
  lemma RootIsAsked(w: World, c: string)
    ensures Servable(GET_ROOT + c, ROOT_LINE) && FileAsked(w, GET_ROOT + c, ROOT_LINE) == w.open("./")
  {
    RootLine();
    RootPath();
    hide L.LineAt, L.LineVersion, UrlOf, Text;
    assert GET_ROOT[5] == ' ';
    ServableOnLonger(GET_ROOT, c, ROOT_LINE);
    FileOnLonger(w, GET_ROOT, c, ROOT_LINE);
  }

  // ---------- a request that is answered ----------

  const HOST: string := "Host: a\r\n\r\n"
  const HOST_LINE: H.Cuts := H.Cuts(16, 20, 22, 23)

  lemma HostLine(w: World)
    ensures var b := GET_ROOT + HOST;
            && H.HeaderAt(b, 16, HOST_LINE) && H.BlankLineAt(b, 25, 25)
            && Accepted(w, b, HOST_LINE) && |NameOf(b, HOST_LINE)| == 4
  {
    hide ToLower;
    var b := GET_ROOT + HOST;
    assert |NameOf(b, HOST_LINE)| == 4;
  }

  lemma OneLine(b: string, s: nat, k: H.Cuts)
    requires H.HeaderAt(b, s, k)
    ensures H.LinesAt(b, s, [k]) && H.LinesEnd(s, [k]) == k.w + 2
  {
    assert [k][1..] == [];
    assert H.LinesAt(b, k.w + 2, []);
  }

  /** A GET of "/" with one header meets the requirements of AnsweredHoweverCut and ExchangeIsExact. */
  lemma SmallRequest(w: World)
    requires w.open("./") != Missing
    ensures WellAsked(w, GET_ROOT + HOST, ROOT_LINE, [HOST_LINE], 25)
  {
    RootIsAsked(w, HOST);
    HostLine(w);
    hide Servable, FileAsked, H.HeaderAt, H.BlankLineAt, Accepted;
    OneLine(GET_ROOT + HOST, 16, HOST_LINE);
  }

  // ---------- the same request over and over ----------

  /** The request in one chunk, its response in one visit. */
  function HostExchange(w: World, script: seq<Response.IoResult>): Exchange {
    Exchange(w, [GET_ROOT + HOST], ROOT_LINE, [HOST_LINE], 25, [script])
  }

  function Times(n: nat, x: Exchange): seq<Exchange> {
    if n == 0 then [] else [x] + Times(n - 1, x)
  }

  lemma HostAsks(w: World, script: seq<Response.IoResult>)
    requires w.open("./") != Missing
    ensures Asks(HostExchange(w, script))
    ensures KeepAlive(GET_ROOT + HOST, [HOST_LINE], true)
    ensures C.Concat(HostExchange(w, script).chunks) == GET_ROOT + HOST
  {
    var b, ks := GET_ROOT + HOST, [HOST_LINE];
    SmallRequest(w);
    HostLine(w);
    assert C.Concat([b]) == b by {
      assert [b][1..] == [] && C.Concat([]) == "";
    }
    hide WellAsked, NameOf, Text, Accepted, H.HeaderAt, H.BlankLineAt, LastValue;
    OtherName(b, HOST_LINE, "connection");
    OtherName(b, HOST_LINE, "content-length");
  }

  lemma OtherName(b: string, k: H.Cuts, name: string)
    requires |NameOf(b, k)| != |name|
    ensures LastValue(b, [k], name) == None
  {
    hide NameOf;
    assert [k][1..] == [];
  }

  lemma OneChunk(w: World, b: string)
    ensures E.Waiting(FRESH) && Ready(b, INIT) && E.Feed(w, FRESH, [b]) == Drive(w, New(b))
  {
    E.FreshIsWaiting();
    FreshIsReady(b);
    NewIsPlus(b);
    hide Drive;
  }

  /** One visit that reads, and one that sends. */
  lemma ReadAndWrite(w: World, b: string, script: seq<Response.IoResult>)
    requires Ready(b, INIT) && Drive(w, New(b)).0 == OK
    ensures var r := Drive(w, New(b)).1;
            && Response.OutOk(r) && MaskOk(FRESH) && Possible(FRESH, Answering(w, b, [script]))
            && var s := Response.ResponseHandle(r, script);
               s.ret != ERROR ==> Live(FRESH, Answering(w, b, [script])) == Open(s.r, s.wire)
  {
    hide Drive, Response.Respond, E.Waiting, WellFormed;
    E.FreshIsWaiting();
    FreshMask();
    NewIsPlus(b);
    ReadIsDrive(w, FRESH, b);
    var r := Drive(w, New(b)).1;
    assert [script][1..] == [] && Writes([]) == [];
    assert [Writable(script)] + [] == [Writable(script)];
    OneMore(FRESH, Readable(b, WouldBlock, w), [Writable(script)]);
    var s := Response.ResponseHandle(r, script);
    if s.ret != ERROR {
      OneMore(r, Writable(script), []);
      assert s.wire + "" == s.wire;
      NothingBehind(Open(s.r, s.wire));
    }
  }

  lemma TwoEvents(w: World, b: string, script: seq<Response.IoResult>, k: L.Cuts, ks: seq<H.Cuts>, e: nat)
    ensures EventsOf(Exchange(w, [b], k, ks, e, [script])) == Answering(w, b, [script])
  {
    assert [b][1..] == [];
    assert Reads(w, [b]) == [Readable(b, WouldBlock, w)];
  }

  /** What the request is when it has been read. */
  lemma HostIsAnswered(w: World, script: seq<Response.IoResult>)
    requires w.open("./") != Missing && Asks(HostExchange(w, script))
    ensures E.Waiting(FRESH)
    ensures var (ret, r) := E.Feed(w, FRESH, [GET_ROOT + HOST]);
            && ret == OK && r.keepAlive && !r.responseDone && Response.OutOk(r)
            && Response.Pending(r) == Answer(HostExchange(w, script))
  {
    var b, x := GET_ROOT + HOST, HostExchange(w, script);
    HostAsks(w, script);
    RootLine();
    LineOnLonger(GET_ROOT, HOST, ROOT_LINE);
    E.FreshIsWaiting();
    hide L.LineAt, L.LineVersion, WellAsked, FileAsked, HeadOf, BodyOf, KeepAlive, E.Feed, Response.Pending,
         HostExchange, GET_ROOT, HOST, E.Waiting;
    AnsweredHoweverCut(w, x.chunks, x.k, x.ks, x.e);
    ResponseIsPending(w, b, x.k, x.ks, x.e, FileAsked(w, b, x.k), E.Feed(w, FRESH, x.chunks).1);
  }

  /** On a socket that takes a byte at each call, one visit sends the whole answer and the connection is fresh again. */
  lemma HostIsPossible(w: World, script: seq<Response.IoResult>)
    requires w.open("./") != Missing && Asks(HostExchange(w, script))
    requires Response.Willing(script) && |script| >= |Answer(HostExchange(w, script))|
    ensures Ready(GET_ROOT + HOST, INIT) && Drive(w, New(GET_ROOT + HOST)).0 == OK
    ensures MaskOk(FRESH) && Possible(FRESH, Answering(w, GET_ROOT + HOST, [script]))
    ensures EventsOf(HostExchange(w, script)) == Answering(w, GET_ROOT + HOST, [script])
    ensures Finishes(HostExchange(w, script))
    ensures Live(FRESH, Answering(w, GET_ROOT + HOST, [script])) == Open(FRESH, Answer(HostExchange(w, script)))
  {
    var b := GET_ROOT + HOST;
    hide Drive, Response.Respond, Response.Pending, E.Feed, E.Waiting, Answer, Asks, Possible, Live, MaskOk;
    HostIsAnswered(w, script);
    OneChunk(w, b);
    TwoEvents(w, b, script, ROOT_LINE, [HOST_LINE], 25);
    var r := Drive(w, New(b)).1;
    Response.WillingSocketFinishes(r, script);
    Response.RespondConserves(r, script);
    ReadAndWrite(w, b, script);
  }

  lemma {:induction false} TimesIsOne(n: nat, x: Exchange)
    ensures forall y | y in Times(n, x) :: y == x
    ensures n > 0 ==> Times(n, x)[0] == x && Times(n, x)[1..] == Times(n - 1, x)
  {
    if n > 0 {
      TimesIsOne(n - 1, x);
    }
  }

  lemma {:induction false} ManyArePossible(x: Exchange, n: nat)
    requires MaskOk(FRESH) && Possible(FRESH, EventsOf(x)) && Live(FRESH, EventsOf(x)).Open?
    requires Live(FRESH, EventsOf(x)).r == FRESH
    ensures Possible(FRESH, AllEvents(Times(n, x)))
  {
    hide EventsOf, MaskOk, Dispatch, Live;
    if n > 0 {
      ManyArePossible(x, n - 1);
      TimesIsOne(n, x);
      PartsMakeALife(FRESH, EventsOf(x), AllEvents(Times(n - 1, x)));
    }
  }

  /** Any number of these requests on one connection: the wire carries as many answers. */
  lemma ManyRequests(w: World, script: seq<Response.IoResult>, n: nat)
    requires w.open("./") != Missing && Asks(HostExchange(w, script))
    requires Response.Willing(script) && |script| >= |Answer(HostExchange(w, script))|
    ensures var xs := Times(n, HostExchange(w, script));
            && (forall x | x in xs :: Asks(x) && Finishes(x))
            && MaskOk(FRESH) && Possible(FRESH, AllEvents(xs))
            && Live(FRESH, AllEvents(xs)).wire == Answers(xs)
  {
    hide Asks, Finishes, Answer, EventsOf, AllEvents, MaskOk, HostExchange, Possible, Live, Times;
    var x := HostExchange(w, script);
    HostIsPossible(w, script);
    ManyArePossible(x, n);
    TimesIsOne(n, x);
    AnswersGoOutInOrder(Times(n, x));
  }

  /** Two requests that come in one visit: the second is lost, as is anything else that comes with the first. */
  lemma EarlyRequest(w: World, script: seq<Response.IoResult>, c: string)
    requires w.open("./") != Missing && Asks(HostExchange(w, script))
    requires Response.Willing(script) && |script| >= |Answer(HostExchange(w, script))|
    ensures MaskOk(FRESH) && Possible(FRESH, Answering(w, GET_ROOT + HOST + c, [script]))
    ensures Live(FRESH, Answering(w, GET_ROOT + HOST + c, [script])) == Open(FRESH, Answer(HostExchange(w, script)))
  {
    hide Drive, E.Waiting, Answer, Asks, Possible, Live, MaskOk, Answering, Finishes, EventsOf;
    HostIsPossible(w, script);
    E.FreshIsWaiting();
    NewIsPlus(GET_ROOT + HOST);
    EarlyBytesAreLost(w, FRESH, GET_ROOT + HOST, c, [script]);
  }

  // ---------- a header line that is refused ----------

  const BAD_CONNECTION: string := "Connection: x\r\n"
  const BAD_LINE: H.Cuts := H.Cuts(16, 26, 28, 29)

  /** Whatever comes behind it. */
  lemma BadLine(w: World, c: string)
    ensures var b := GET_ROOT + BAD_CONNECTION + c;
            && H.HeaderAt(b, 16, BAD_LINE) && NameOf(b, BAD_LINE) == "connection" && Text(b, ValueOf(BAD_LINE)) == "x"
            && !Accepted(w, b, BAD_LINE)
  {
    var b := GET_ROOT + BAD_CONNECTION;
    assert b[16..26] == "Connection" && b[28..29] == "x";
    assert LowerText("Connection") == "connection";
    assert H.HeaderAt(b, 16, BAD_LINE) && NameOf(b, BAD_LINE) == "connection" && Text(b, ValueOf(BAD_LINE)) == "x";
    hide LowerText, NameOf, Text;
    HeaderOnLonger(b, c, 16, BAD_LINE);
    LineMeansTheSameOnLonger(b, c, 16, BAD_LINE);
  }

  lemma BadIsRefused(w: World, c: string)
    requires w.open("./") != Missing
    ensures Refused(w, GET_ROOT + BAD_CONNECTION + c, ROOT_LINE, [BAD_LINE])
  {
    var b := GET_ROOT + BAD_CONNECTION + c;
    RootIsAsked(w, BAD_CONNECTION + c);
    assert GET_ROOT + (BAD_CONNECTION + c) == b;
    BadLine(w, c);
    hide Servable, FileAsked, H.HeaderAt, Accepted, NameOf, Text;
    OneLine(b, 16, BAD_LINE);
  }

  lemma RootBehind(c: string)
    ensures L.LineAt(GET_ROOT + c, ROOT_LINE) && L.LineVersion(GET_ROOT + c, ROOT_LINE) == Version(1, 1)
  {
    RootLine();
    hide L.LineAt, L.LineVersion;
    LineOnLonger(GET_ROOT, c, ROOT_LINE);
  }

  lemma AfterFirst(w: World, b: string, k: H.Cuts, rest: seq<H.Cuts>, m: Marks)
    ensures AfterLines(w, 1, b, [k] + rest, m) == AfterLines(w, 1, b, rest, AfterLine(w, 1, b, k, m))
    ensures AfterLines(w, 1, b, [], m) == m
  {
    assert ([k] + rest)[1..] == rest;
    hide AfterLine;
  }

  /** What the refused line has settled. */
  lemma BadMarks(w: World, c: string)
    ensures L.LineAt(GET_ROOT + BAD_CONNECTION + c, ROOT_LINE)
    ensures L.LineVersion(GET_ROOT + BAD_CONNECTION + c, ROOT_LINE) == Version(1, 1)
    ensures AfterLine(w, 1, GET_ROOT + BAD_CONNECTION + c, BAD_LINE, FirstMarks(Version(1, 1)))
         == Marks(false, -1, TeIdentity, ErrorPage(w, 1, 400), 400)
    ensures MarksAfter(w, GET_ROOT + BAD_CONNECTION + c, ROOT_LINE, [BAD_LINE])
         == Marks(false, -1, TeIdentity, ErrorPage(w, 1, 400), 400)
  {
    var b := GET_ROOT + BAD_CONNECTION + c;
    RootBehind(BAD_CONNECTION + c);
    assert GET_ROOT + (BAD_CONNECTION + c) == b;
    BadLine(w, c);
    NothingBefore(ErrorPage(w, 1, 400));
    assert [BAD_LINE] + [] == [BAD_LINE];
    var m := FirstMarks(Version(1, 1));
    AfterFirst(w, b, BAD_LINE, [], m);
    AfterFirst(w, b, BAD_LINE, [], AfterLine(w, 1, b, BAD_LINE, m));
    hide L.LineAt, L.LineVersion, H.HeaderAt, Accepted, NameOf, Text, ErrorPage, AfterLines;
  }

  /** The last two bytes of this request decide its end when they come by themselves. */
  lemma RefusedConnection(w: World)
    requires w.open("./") != Missing
    ensures var b := GET_ROOT + BAD_CONNECTION + "\r\n";
            && ShowsBehind(w, b, ROOT_LINE, [BAD_LINE])
            && exists chunks | CutOf(b, chunks) :: E.Stalled(InChunks(w, chunks))
                 && !SameAnswer(InChunks(w, chunks), AtOnce(w, b))
  {
    BlankBehindBad();
    BadMarks(w, "\r\n");
    BadIsRefused(w, "\r\n");
    hide GET_ROOT, BAD_CONNECTION, Refused, AtOnce, InChunks, SameAnswer, H.BlankLineAt, MarksAfter, L.LineAt,
         L.LineVersion, ErrorPage, E.Stalled;
    var b := GET_ROOT + BAD_CONNECTION + "\r\n";
    ShowsAtEnd(w, b, [BAD_LINE], 31);
    var chunks := CutThatShows(w, b, ROOT_LINE, [BAD_LINE]);
  }

  lemma BlankBehindBad()
    ensures var b := GET_ROOT + BAD_CONNECTION + "\r\n";
            H.BlankLineAt(b, 31, 31) && |b| == 33
  {
  }

  lemma ShowsAtEnd(w: World, b: string, ks: seq<H.Cuts>, s: nat)
    requires Refused(w, b, ROOT_LINE, ks) && L.LineAt(b, ROOT_LINE) && H.LinesEnd(16, ks) == s && H.BlankLineAt(b, s, s)
    requires |b| - (s + 2) >= MarksAfter(w, b, ROOT_LINE, ks).length
    ensures ShowsBehind(w, b, ROOT_LINE, ks)
  {
    hide Refused, H.BlankLineAt, H.HeaderAt, H.BrokenAt, MarksAfter, L.LineAt, H.LinesEnd;
  }

  /** Neither a line nor a break nor a blank line. */
  lemma NothingStands(b: string)
    requires |b| == 32 && b[31] == 'x'
    ensures forall h :: !H.HeaderAt(b, 31, h)
    ensures forall h, q :: !H.BrokenAt(b, 31, h, q)
    ensures forall e: nat :: !H.BlankLineAt(b, 31, e)
  {
  }

  /** The refused line is all there is behind the request line. */
  lemma OnlyBadLine(w: World, b: string, k: L.Cuts, ks: seq<H.Cuts>)
    requires b == GET_ROOT + BAD_CONNECTION + "x" && Refused(w, b, k, ks)
    ensures H.LinesEnd(k.r + 2, ks) == 31 && |b| == 32 && b[31] == 'x'
  {
    hide H.HeaderAt, L.LineAt, Accepted, Refused;
    RefusedIsLine(w, b, k, ks);
    RootBehind(BAD_CONNECTION + "x");
    assert GET_ROOT + (BAD_CONNECTION + "x") == b;
    L.CutsAreUnique(b, k, ROOT_LINE);
    BadLine(w, "x");
    NothingStands(b);
    assert ks[..0] == [];
    H.HeaderIsUnique(b, 16, ks[0], BAD_LINE);
    if |ks| > 1 {
      LinesInParts(b, 16, ks, 1);
    }
  }

  lemma QuietEnd(w: World, b: string, m: Marks)
    requires |b| == 32 && b[31] == 'x'
    ensures !Shows(w, b, 31, m)
  {
    hide H.HeaderAt, H.BrokenAt, H.BlankLineAt, Known, NameOf;
    NothingStands(b);
  }

  lemma QuietBehind(w: World, b: string, k: L.Cuts, ks: seq<H.Cuts>)
    requires b == GET_ROOT + BAD_CONNECTION + "x"
    ensures !ShowsBehind(w, b, k, ks)
  {
    if ShowsBehind(w, b, k, ks) {
      hide Refused, Shows, MarksAfter, H.LinesEnd;
      OnlyBadLine(w, b, k, ks);
      RefusedIsLine(w, b, k, ks);
      QuietEnd(w, b, MarksAfter(w, b, k, ks));
    }
  }

  /**
   * With the beginning of a line behind it instead, a cut can still make the visit stall, but none shows in the answer.
   */
  lemma RefusedQuietly(w: World, chunks: seq<string>)
    requires w.open("./") != Missing && CutOf(GET_ROOT + BAD_CONNECTION + "x", chunks)
    ensures exists cut | CutOf(GET_ROOT + BAD_CONNECTION + "x", cut) :: E.Stalled(InChunks(w, cut))
    ensures SameAnswer(InChunks(w, chunks), AtOnce(w, GET_ROOT + BAD_CONNECTION + "x"))
  {
    var b := GET_ROOT + BAD_CONNECTION + "x";
    BadIsRefused(w, "x");
    hide Refused, AtOnce, InChunks, SameAnswer, Shows;
    StallsExactlyWhen(w, b);
    CutsMatterExactlyWhen(w, b);
    forall k, ks
      ensures !ShowsBehind(w, b, k, ks)
    {
      QuietBehind(w, b, k, ks);
    }
  }

  // ---------- an error page that is cut short ----------

  const KEEP_ALIVE: string := "Connection: keep-alive\r\n\r\n"
  const KEEP_LINE: H.Cuts := H.Cuts(31, 41, 43, 53)

  lemma KeepLine()
    ensures var b := GET_ROOT + BAD_CONNECTION + KEEP_ALIVE;
            && |b| == 57 && H.HeaderAt(b, 31, KEEP_LINE) && H.BlankLineAt(b, 55, 55)
            && NameOf(b, KEEP_LINE) == "connection" && Text(b, ValueOf(KEEP_LINE)) == "keep-alive"
            && CaseEqual("keep-alive", "keep-alive")
  {
    var b := GET_ROOT + BAD_CONNECTION + KEEP_ALIVE;
    KeepLineStands();
    hide H.HeaderAt, H.BlankLineAt;
    assert b[31..41] == "Connection" && b[43..53] == "keep-alive";
    assert LowerText("Connection") == "connection" && LowerText("keep-alive") == "keep-alive";
  }

  lemma KeepLineStands()
    ensures H.HeaderAt(GET_ROOT + BAD_CONNECTION + KEEP_ALIVE, 31, KEEP_LINE)
    ensures H.BlankLineAt(GET_ROOT + BAD_CONNECTION + KEEP_ALIVE, 55, 55)
  {
  }

  lemma CutShortMarks(w: World)
    ensures var b := GET_ROOT + BAD_CONNECTION + KEEP_ALIVE;
            && L.LineAt(b, ROOT_LINE) && L.LineVersion(b, ROOT_LINE) == Version(1, 1)
            && H.LinesAt(b, 16, [BAD_LINE, KEEP_LINE]) && H.LinesEnd(16, [BAD_LINE, KEEP_LINE]) == 55
            && !AllAccepted(w, b, [BAD_LINE, KEEP_LINE])
            && MarksAfter(w, b, ROOT_LINE, [BAD_LINE, KEEP_LINE])
                 == Marks(true, -1, TeIdentity, ErrorPage(w, 1, 400), 400)
  {
    var b, ks := GET_ROOT + BAD_CONNECTION + KEEP_ALIVE, [BAD_LINE, KEEP_LINE];
    BadMarks(w, KEEP_ALIVE);
    BadLine(w, KEEP_ALIVE);
    KeepLine();
    assert ks[1..] == [KEEP_LINE];
    assert ks == [BAD_LINE] + [KEEP_LINE] && [KEEP_LINE] == [KEEP_LINE] + [];
    var m := FirstMarks(Version(1, 1));
    var m1 := AfterLine(w, 1, b, BAD_LINE, m);
    AfterFirst(w, b, BAD_LINE, [KEEP_LINE], m);
    AfterFirst(w, b, KEEP_LINE, [], m1);
    AfterFirst(w, b, KEEP_LINE, [], AfterLine(w, 1, b, KEEP_LINE, m1));
    hide L.LineAt, L.LineVersion, H.HeaderAt, H.BlankLineAt, Accepted, NameOf, Text, CaseEqual, ErrorPage, AfterLines;
    OneLine(b, 31, KEEP_LINE);
    assert !Accepted(w, b, ks[0]);
  }

  /** The page, and a head once more: the response is marked done, and yet the connection is to be kept. */
  lemma CutShortIsAnswered(w: World)
    requires w.open("./") != Missing
    ensures var b := GET_ROOT + BAD_CONNECTION + KEEP_ALIVE;
            && Ready(b, INIT) && Drive(w, New(b)).0 == OK
            && var r := Drive(w, New(b)).1;
               && r.responseDone && r.keepAlive
               && r.out == FRESH.out.(ob := ErrorPage(w, 1, 400)
                    + w.render(Head(1, 400, "html", |w.page(400)|, true, true)))
  {
    hide GET_ROOT, BAD_CONNECTION, KEEP_ALIVE, L.LineAt, L.LineVersion, H.LinesAt, H.BlankLineAt, H.LinesEnd, Servable,
         FileAsked, ErrorPage, MarksAfter, AllAccepted, Drive, H.HeaderAt, NameOf, Text, CaseEqual;
    RootIsAsked(w, BAD_CONNECTION + KEEP_ALIVE);
    CutShortMarks(w);
    KeepLine();
    var b := GET_ROOT + BAD_CONNECTION + KEEP_ALIVE;
    Response.Reassociate(GET_ROOT, BAD_CONNECTION, KEEP_ALIVE);
    AnsweredTwice(w, b, [BAD_LINE, KEEP_LINE]);
  }

  lemma AnsweredTwice(w: World, b: string, ks: seq<H.Cuts>)
    requires Servable(b, ROOT_LINE) && FileAsked(w, b, ROOT_LINE) != Missing && L.LineVersion(b, ROOT_LINE).minor == 1
    requires H.LinesAt(b, 16, ks) && H.LinesEnd(16, ks) == 55 && H.BlankLineAt(b, 55, 55) && |b| == 57
    requires !AllAccepted(w, b, ks)
    requires MarksAfter(w, b, ROOT_LINE, ks) == Marks(true, -1, TeIdentity, ErrorPage(w, 1, 400), 400)
    ensures Ready(b, INIT) && Drive(w, New(b)).0 == OK
    ensures var r := Drive(w, New(b)).1;
            && r.responseDone && r.keepAlive
            && r.out == FRESH.out.(ob := ErrorPage(w, 1, 400)
                 + w.render(Head(1, 400, "html", |w.page(400)|, true, true)))
  {
    hide L.LineAt, L.LineVersion, H.LinesAt, H.BlankLineAt, Servable, FileAsked, ErrorPage, MarksAfter, AllAccepted,
         LineAnswered, Drive, SizeOf, MimeOf, UrlOf;
    FreshIsReady(b);
    RequestIsAnswered(w, b, ROOT_LINE, ks, 55);
  }

  /**
   * A refused header and then one that asks to keep the connection: a page is made, but when the socket is not ready at
   * once none of it is sent, and the connection goes on as a new one.
   */
  lemma PageThrownAway(w: World)
    requires w.open("./") != Missing
    ensures var b := GET_ROOT + BAD_CONNECTION + KEEP_ALIVE;
            && Ready(b, INIT) && Drive(w, New(b)).0 == OK
            && ErrorPage(w, 1, 400) <= Drive(w, New(b)).1.out.ob
            && MaskOk(FRESH) && Possible(FRESH, Answering(w, b, [[Response.NotNow]]))
            && Live(FRESH, Answering(w, b, [[Response.NotNow]])) == Open(FRESH, "")
  {
    var b := GET_ROOT + BAD_CONNECTION + KEEP_ALIVE;
    hide ErrorPage, Drive, Response.ResponseHandle, Possible, Live, MaskOk, Answering, KEEP_ALIVE;
    CutShortIsAnswered(w);
    ReadAndWrite(w, b, [Response.NotNow]);
    NotNowSendsNothing(Drive(w, New(b)).1);
  }

  lemma NotNowSendsNothing(r: Request)
    requires Response.OutOk(r) && r.out == FRESH.out.(ob := r.out.ob) && r.responseDone && r.keepAlive
    ensures var s := Response.ResponseHandle(r, [Response.NotNow]);
            s.r == FRESH && s.wire == "" && s.ret != ERROR
  {
  }

  // ---------- error responses ----------

  const QUESTION: string := "?"

  /** Not even a method. */
  lemma NotALine(w: World)
    ensures ErrorAnswer(w, MinorRead(QUESTION), 400, AtOnce(w, QUESTION).0, AtOnce(w, QUESTION).1)
  {
    var k := L.Cuts(0, 0, 0, 0, 0, 0);
    assert L.BrokenAt(QUESTION, k, 0, 0);
    BrokenLineIsAnswered(w, QUESTION);
  }

  const VERSION_TWO: string := "GET / HTTP/2.0\r\n"

  lemma VersionTwo()
    ensures Unserved(VERSION_TWO, ROOT_LINE) && L.LineVersion(VERSION_TWO, ROOT_LINE) == Version(2, 0)
  {
    assert VERSION_TWO[..3] == "GET" == L.MethodName(GET);
    assert L.Value(VERSION_TWO, 11, 12) == 2 && L.Value(VERSION_TWO, 13, 14) == 0;
  }

  /** A version that is not served. */
  lemma VersionNotServed(w: World)
    ensures ErrorAnswer(w, 0, 505, AtOnce(w, VERSION_TWO).0, AtOnce(w, VERSION_TWO).1)
  {
    VersionTwo();
    hide L.LineVersion, Unserved, ErrorAnswer, AtOnce, VERSION_TWO;
    UnservedIsAnswered(w, VERSION_TWO, ROOT_LINE);
  }

  /** A file that is not there, with anything behind the request line. */
  lemma NoSuchFile(w: World, c: string)
    requires w.open("./") == Missing
    ensures ErrorAnswer(w, 1, 404, AtOnce(w, GET_ROOT + c).0, AtOnce(w, GET_ROOT + c).1)
  {
    RootIsAsked(w, c);
    RootBehind(c);
    hide L.LineAt, L.LineVersion, Servable, FileAsked, ErrorAnswer, Drive, GET_ROOT;
    MissingIsAnswered(w, GET_ROOT + c, ROOT_LINE);
    AtOnceDrives(w, GET_ROOT + c);
  }

  // ---------- names of headers ----------

  const USER_AGENT: string := "User-Agent: x\r\n"
  const AGENT_LINE: H.Cuts := H.Cuts(16, 26, 28, 29)

  /** A name with a hyphen. */
  lemma NameWithHyphen(w: World)
    ensures var b := GET_ROOT + USER_AGENT;
            H.HeaderAt(b, 16, AGENT_LINE) && NameOf(b, AGENT_LINE) == "user-agent" && Accepted(w, b, AGENT_LINE)
  {
    var b := GET_ROOT + USER_AGENT;
    assert b[16..26] == "User-Agent";
    assert LowerText("User-Agent") == "user-agent";
  }

  /** In whatever case its name is written, the header fills one slot. */
  lemma HostInAnyCase(w: World, r: Request)
    requires Text(r.ib, r.ar.headerName) in {"HOST", "Host", "host"} && Inside(|r.ib|, r.ar.headerName)
    ensures OnHeader(w, r).slots == r.slots["host" := r.ar.headerValue]
  {
    var name := Text(r.ib, r.ar.headerName);
    assert LowerText("HOST") == "host" && LowerText("Host") == "host" && LowerText("host") == "host";
    assert Text(Lowered(r.ib, r.ar.headerName), r.ar.headerName) == LowerText(name);
    hide LowerText, Lowered, Text;
    KnownNames("host");
    CallbackOf("host");
  }

  // ---------- a URL ended by a TAB ----------

  const TAB_LINE: string := "GET /\tHTTP/1.1\r\n"

  lemma TabIsALine()
    ensures L.LineAt(TAB_LINE, ROOT_LINE) && L.LineVersion(TAB_LINE, ROOT_LINE) == Version(1, 1)
  {
    assert TAB_LINE[..3] == "GET" == L.MethodName(GET);
    assert L.Value(TAB_LINE, 11, 12) == 1 && L.Value(TAB_LINE, 13, 14) == 1;
  }

  /** The handler follows NULL on it. */
  lemma TabFaults(w: World)
    ensures Ready(TAB_LINE, INIT) && HandleRequestLine(w, New(TAB_LINE)).0 == FAULT
  {
    FreshIsReady(TAB_LINE);
    TabIsALine();
    assert TAB_LINE[5] == '\t' && TAB_LINE[4..5] == [TAB_LINE[4]];
    assert '?' !in TAB_LINE[4..5];
    hide L.LineAt, L.LineVersion, HandleRequestLine, TAB_LINE;
    NewHasHistory(TAB_LINE);
    E.FaultsExactlyWhen(w, New(TAB_LINE), ROOT_LINE);
  }

  // ---------- a bare LF ----------

  const BARE_LF: string := "a:b\n"

  /** Behind a good request line the parser is parked and asks for more whatever comes. */
  lemma BareLfParks(w: World, c: string)
    ensures var b := GET_ROOT + BARE_LF;
            && L.LineAt(b, ROOT_LINE) && H.BareLfAt(b, 16, H.Cuts(16, 17, 18, 19))
            && var a := L.LineArchive(b, ROOT_LINE);
               H.LineStart(b, a) && Parse(HeaderLine, b, a).ar.state == HdLfAfterVal
               && H.LineStart(b + c, a) && Parse(HeaderLine, b + c, a).status == Again
  {
    var b, k := GET_ROOT + BARE_LF, H.Cuts(16, 17, 18, 19);
    BareLfStands();
    RootIsAsked(w, BARE_LF);
    hide L.LineAt, L.LineVersion, L.AfterUrl, H.BareLfAt, H.LineStart, FileAsked, Run;
    LineIsHandled(w, b, ROOT_LINE);
    var a := L.LineArchive(b, ROOT_LINE);
    H.StuckExactlyOnBareLf(b, a);
    LineStartOnLonger(b, c, a);
    LfIsBehindToo(b, c, 16, k);
    H.StuckExactlyOnBareLf(b + c, a);
  }

  lemma BareLfStands()
    ensures H.BareLfAt(GET_ROOT + BARE_LF, 16, H.Cuts(16, 17, 18, 19))
  {
  }

  lemma LineStartOnLonger(b: string, c: string, a: Archive)
    requires H.LineStart(b, a)
    ensures H.LineStart(b + c, a)
  {
  }

  lemma LfIsBehindToo(b: string, c: string, s: nat, k: H.Cuts)
    requires H.BareLfAt(b, s, k)
    ensures H.BareLfAt(b + c, s, k)
  {
  }

  // ---------- removal from the middle of the heap ----------

  /** The key 2 takes the place of 11 below its parent 10; bubbling down leaves it there. */
  lemma RemovalFromTheMiddle()
    ensures var s := [0, 10, 1, 11, 12, 2, 3];
            && HeapOrder.Ordered(s) && !HeapOrder.RemovalKeepsOrder(s, 3)
            && HeapOrder.AtRest(HeapOrder.Removed(s, 3), 3) && !HeapOrder.Ordered(HeapOrder.Removed(s, 3))
  {
    var s := [0, 10, 1, 11, 12, 2, 3];
    assert forall i | 0 < i < |s| :: HeapOrder.AboveParent(s, i) by {
      assert HeapOrder.AboveParent(s, 1) && HeapOrder.AboveParent(s, 2) && HeapOrder.AboveParent(s, 3);
      assert HeapOrder.AboveParent(s, 4) && HeapOrder.AboveParent(s, 5) && HeapOrder.AboveParent(s, 6);
    }
    HeapOrder.RemovalIsRepairable(s, 3);
  }

  // ---------- a directory without an index.html ----------

  /** A directory of 4096 bytes is announced with them and served with none. */
  lemma DirectoryWithoutIndex(w: World, r: Request)
    requires r.out == FRESH.out
    ensures var r' := WithFile(w, r, Directory(4096, None));
            r'.file.size == 4096 && Response.OutOk(r') && Response.BodyLeft(r') == "" && r'.handler == OnHeaders
  {
    Response.AdvertisedLengthIsRight(w, r, Directory(4096, None));
  }
}
