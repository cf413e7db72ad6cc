// What header lines mean to a request: which slots they fill, what they settle, and which of them are answered with an
// error page; said on the bytes of the lines, without the machine, the callbacks or their writes to the buffer.
module HeaderMeaning {
  import opened Common
  import opened HttpParser
  import opened Request
  import E = EndToEnd
  import H = HeaderGrammar

  // ---------- one line ----------

  function NameOf(b: string, k: H.Cuts): string {
    LowerText(Text(b, Slice(k.n, k.c - k.n)))
  }

  function ValueOf(k: H.Cuts): Slice {
    Slice(k.v, k.w - k.v)
  }

  predicate Known(name: string) {
    Lookup(HF_LIST, name).Some?
  }

  /** The code a header is refused with, if it is. */
  function CodeFor(w: World, name: string, value: string): Option<int> {
    if name == "connection" then
      if CaseEqual(value, "keep-alive") || CaseEqual(value, "close") then None else Some(400)
    else if name == "content-length" then
      if w.atoi(value) > 0 then None else Some(400)
    else if name == "transfer-encoding" then Some(if Coding(value).Some? then 501 else 400)
    else None
  }

  /** A line that is not answered with an error. */
  predicate Accepted(w: World, b: string, k: H.Cuts) {
    CodeFor(w, NameOf(b, k), Text(b, ValueOf(k))).None?
  }

  predicate AllAccepted(w: World, b: string, ks: seq<H.Cuts>) {
    forall i | 0 <= i < |ks| :: Accepted(w, b, ks[i])
  }

  /** What headers settle, the error pages they are answered with, and the code of the last of these. */
  datatype Marks = Marks(keepAlive: bool, length: int, coding: TransferEncoding, pages: string, code: int)

  /** What a header settles, refused or not. */
  function Settled(w: World, name: string, value: string, m: Marks): Marks {
    if name == "connection" then
      if CaseEqual(value, "keep-alive") then m.(keepAlive := true)
      else if CaseEqual(value, "close") then m.(keepAlive := false)
      else m
    else if name == "content-length" then
      if w.atoi(value) > 0 then m.(length := w.atoi(value)) else m
    else if name == "transfer-encoding" then
      match Coding(value) case Some(te) => m.(coding := te) case None => m
    else m
  }

  /** What the head of an error response says: the code, the page that follows, and the end of the connection. */
  function ErrorHead(w: World, minor: nat, code: int): Head {
    Head(minor, code, "html", |w.page(code)|, false, true)
  }

  /** An error response in full. */
  function ErrorPage(w: World, minor: nat, code: int): string {
    w.render(ErrorHead(w, minor, code)) + w.page(code)
  }

  /**
   * A header that is refused gets its error page, and the connection is to be closed unless a later one says otherwise.
   */
  function AfterHeader(w: World, minor: nat, name: string, value: string, m: Marks): Marks {
    var m1 := Settled(w, name, value, m);
    match CodeFor(w, name, value)
    case None => m1
    case Some(code) => m1.(keepAlive := false, pages := m.pages + ErrorPage(w, minor, code), code := code)
  }

  function AfterLine(w: World, minor: nat, b: string, k: H.Cuts, m: Marks): Marks {
    AfterHeader(w, minor, NameOf(b, k), Text(b, ValueOf(k)), m)
  }

  // ---------- lines ----------

  function AfterLines(w: World, minor: nat, b: string, ks: seq<H.Cuts>, m: Marks): Marks {
    if ks == [] then m else AfterLines(w, minor, b, ks[1..], AfterLine(w, minor, b, ks[0], m))
  }

  /** The value of the last line with this name, whatever the case it is written in. */
  function LastValue(b: string, ks: seq<H.Cuts>, name: string): Option<Slice> {
    if ks == [] then None
    else
      var later := LastValue(b, ks[1..], name);
      if later.Some? then later
      else if NameOf(b, ks[0]) == name then Some(ValueOf(ks[0]))
      else None
  }

  /** What the last Connection header asks for, or else what was so before. */
  function KeepAlive(b: string, ks: seq<H.Cuts>, before: bool): bool {
    match LastValue(b, ks, "connection")
    case Some(s) => CaseEqual(Text(b, s), "keep-alive")
    case None => before
  }

  function Length(w: World, b: string, ks: seq<H.Cuts>, before: int): int {
    match LastValue(b, ks, "content-length")
    case Some(s) => w.atoi(Text(b, s))
    case None => before
  }

  /**
   * The slots after a block: under each known name the value of the last line with it, under any other what was there.
   */
  ghost predicate SlotsFilled(b: string, ks: seq<H.Cuts>, before: map<string, Slice>, after: map<string, Slice>) {
    forall name ::
      match if Known(name) then LastValue(b, ks, name) else None
      case Some(s) => name in after && after[name] == s
      case None => (name in after <==> name in before) && (name in after ==> after[name] == before[name])
  }

  /** The bytes of the values are those that were received. */
  predicate ValuesKept(b: string, ks: seq<H.Cuts>, b': string) {
    forall i | 0 <= i < |ks| :: Text(b', ValueOf(ks[i])) == Text(b, ValueOf(ks[i]))
  }

  // ---------- lines on the tail of a buffer ----------

  predicate HeadKept(b: string, b': string, p: int) {
    |b'| == |b| && forall i | 0 <= i < |b| && i < p :: b'[i] == b[i]
  }

  lemma TailText(b: string, b': string, p: int, s: Slice)
    requires E.TailKept(b, b', p) && p <= s.str
    ensures Text(b', s) == Text(b, s)
  {
  }

  lemma LineOnTail(b: string, b': string, p: nat, s: nat, k: H.Cuts)
    requires E.TailKept(b, b', p) && p <= s && H.HeaderAt(b, s, k)
    ensures H.HeaderAt(b', s, k)
  {
  }

  lemma {:induction false} LinesOnTail(b: string, b': string, p: nat, s: nat, ks: seq<H.Cuts>)
    requires E.TailKept(b, b', p) && p <= s && H.LinesAt(b, s, ks)
    ensures H.LinesAt(b', s, ks) && s <= H.LinesEnd(s, ks)
    decreases |ks|
  {
    if ks != [] {
      LineOnTail(b, b', p, s, ks[0]);
      LinesOnTail(b, b', p, ks[0].w + 2, ks[1..]);
    }
  }

  lemma LineIsPositive(b: string, s: nat, k: H.Cuts)
    requires H.HeaderAt(b, s, k)
    ensures s <= k.n < k.c < k.v < k.w
  {
  }

  lemma LineMeansTheSame(b: string, b': string, p: int, s: nat, k: H.Cuts)
    requires E.TailKept(b, b', p) && p <= s && H.HeaderAt(b, s, k)
    ensures NameOf(b', k) == NameOf(b, k) && Text(b', ValueOf(k)) == Text(b, ValueOf(k)) && ValueOf(k).str >= p
  {
    TailText(b, b', p, Slice(k.n, k.c - k.n));
    TailText(b, b', p, ValueOf(k));
    hide Text, LowerText, E.TailKept;
  }

  /** Nothing that lines mean depends on the bytes before them. */
  lemma {:induction false} MeaningOnTail(w: World, minor: nat, b: string, b': string, p: nat, s: nat, ks: seq<H.Cuts>,
      m: Marks)
    requires E.TailKept(b, b', p) && p <= s && H.LinesAt(b, s, ks)
    ensures AfterLines(w, minor, b', ks, m) == AfterLines(w, minor, b, ks, m)
    ensures AllAccepted(w, b', ks) == AllAccepted(w, b, ks)
    ensures ValuesKept(b, ks, b')
    decreases |ks|
  {
    if ks != [] {
      var k, rest := ks[0], ks[1..];
      LineIsPositive(b, s, k);
      LineMeansTheSame(b, b', p, s, k);
      hide NameOf, Text, AfterHeader, CodeFor, E.TailKept, H.HeaderAt, AllAccepted, ValuesKept;
      MeaningOnTail(w, minor, b, b', p, k.w + 2, rest, AfterLine(w, minor, b, k, m));
      FirstAndRest(w, b, ks);
      FirstAndRest(w, b', ks);
      KeptFromFirst(b, ks, b');
    } else {
      hide Text;
    }
  }

  lemma {:induction false} ValuesOnTail(b: string, b': string, p: nat, s: nat, ks: seq<H.Cuts>, name: string)
    requires E.TailKept(b, b', p) && p <= s && H.LinesAt(b, s, ks)
    ensures LastValue(b', ks, name) == LastValue(b, ks, name)
    ensures LastValue(b, ks, name).Some? ==> LastValue(b, ks, name).value.str >= p
    decreases |ks|
  {
    if ks != [] {
      LineIsPositive(b, s, ks[0]);
      LineMeansTheSame(b, b', p, s, ks[0]);
      hide NameOf, E.TailKept, H.HeaderAt, Text;
      ValuesOnTail(b, b', p, ks[0].w + 2, ks[1..], name);
    }
  }

  lemma FirstAndRest(w: World, b: string, ks: seq<H.Cuts>)
    requires ks != []
    ensures AllAccepted(w, b, ks) <==> Accepted(w, b, ks[0]) && AllAccepted(w, b, ks[1..])
  {
    hide Accepted;
    assert forall i | 0 < i < |ks| :: ks[i] == ks[1..][i - 1];
  }

  lemma KeptFromFirst(b: string, ks: seq<H.Cuts>, b': string)
    requires ks != []
    ensures ValuesKept(b, ks, b') <==> Text(b', ValueOf(ks[0])) == Text(b, ValueOf(ks[0])) && ValuesKept(b, ks[1..], b')
  {
    hide Text;
    assert forall i | 0 < i < |ks| :: ks[i] == ks[1..][i - 1];
  }

  // ---------- accepted lines ----------

  lemma LastFromFirst(w: World, b: string, ks: seq<H.Cuts>, keepAlive: bool, length: int)
    requires ks != []
    ensures var name, value := NameOf(b, ks[0]), Text(b, ValueOf(ks[0]));
            && KeepAlive(b, ks, keepAlive)
            == KeepAlive(b, ks[1..], if name == "connection" then CaseEqual(value, "keep-alive") else keepAlive)
            && Length(w, b, ks, length)
                 == Length(w, b, ks[1..], if name == "content-length" then w.atoi(value) else length)
  {
    hide Text, CaseEqual, NameOf;
  }

  lemma AcceptedHeader(w: World, minor: nat, name: string, value: string, m: Marks)
    requires CodeFor(w, name, value).None?
    ensures AfterHeader(w, minor, name, value, m)
         == m.(keepAlive := if name == "connection" then CaseEqual(value, "keep-alive") else m.keepAlive,
            length := if name == "content-length" then w.atoi(value) else m.length)
  {
    hide CaseEqual, Coding;
  }

  /** When no line is refused, the last Connection and the last Content-Length decide, and nothing is sent. */
  lemma {:induction false} AcceptedLines(w: World, minor: nat, b: string, ks: seq<H.Cuts>, m: Marks)
    requires AllAccepted(w, b, ks)
    ensures AfterLines(w, minor, b, ks, m)
         == m.(keepAlive := KeepAlive(b, ks, m.keepAlive), length := Length(w, b, ks, m.length))
    decreases |ks|
  {
    if ks != [] {
      FirstAndRest(w, b, ks);
      LastFromFirst(w, b, ks, m.keepAlive, m.length);
      AcceptedHeader(w, minor, NameOf(b, ks[0]), Text(b, ValueOf(ks[0])), m);
      hide AllAccepted, NameOf, Text, CodeFor, AfterHeader, CaseEqual, KeepAlive, Length;
      AcceptedLines(w, minor, b, ks[1..], AfterLine(w, minor, b, ks[0], m));
    }
  }

  // ---------- the list of callbacks ----------

  lemma {:induction false} LookupIsAnEntry(list: seq<(string, Callback)>, key: string)
    ensures match Lookup(list, key)
            case Some(v) => exists i :: 0 <= i < |list| && list[i] == (key, v)
            case None => forall i | 0 <= i < |list| :: list[i].0 != key
    decreases |list|
  {
    if list != [] {
      LookupIsAnEntry(list[..|list| - 1], key);
    }
  }

  /** Which names have a callback of their own. */
  lemma CallbackOf(name: string)
    ensures match Lookup(HF_LIST, name)
            case Some(callback) =>
              && (callback == Connection <==> name == "connection")
              && (callback == ContentLength <==> name == "content-length")
              && (callback == TransferCoding <==> name == "transfer-encoding")
            case None => name != "connection" && name != "content-length" && name != "transfer-encoding"
  {
    LookupIsAnEntry(HF_LIST, name);
    assert HF_LIST[5] == ("content-length", ContentLength);
    assert HF_LIST[6] == ("connection", Connection);
    assert HF_LIST[15] == ("transfer-encoding", TransferCoding);
  }

  // ---------- one line through the handler ----------

  function MarksOf(r: Request): Marks {
    Marks(r.keepAlive, r.ar.contentLength, r.transferEncoding, r.out.ob, r.statusCode)
  }

  /**
   * The request with these marks; a refused header also takes the handler away, arms output and marks the response
   * done.
   */
  function WithMarks(r: Request, m: Marks, refused: bool): Request {
    r.(keepAlive := m.keepAlive, ar := r.ar.(contentLength := m.length), transferEncoding := m.coding,
    out := r.out.(ob := m.pages), statusCode := m.code,
    errReq := r.errReq || refused, responseDone := r.responseDone || refused,
    handler := if refused then NoHandler else r.handler, ev := if refused then Interest(false, true) else r.ev)
  }

  /** Lowering the name in place leaves the value, and the looked-up name is the name in lower case. */
  lemma LoweredName(b: string, s: nat, k: H.Cuts)
    requires H.HeaderAt(b, s, k)
    ensures var b' := Lowered(b, Slice(k.n, k.c - k.n));
            && HeadKept(b, b', s) && E.TailKept(b, b', k.c)
            && Text(b', Slice(k.n, k.c - k.n)) == NameOf(b, k)
            && Text(b', ValueOf(k)) == Text(b, ValueOf(k))
  {
    hide ToLower;
  }

  lemma ErrorMarks(w: World, r: Request, code: int)
    ensures ErrResponse(w, r, code)
         == WithMarks(
              r,
              MarksOf(r).(keepAlive := false, pages := r.out.ob + ErrorPage(w, r.ar.version.minor, code), code := code),
              true)
  {
  }

  /** Each callback does what its header means. */
  lemma CallbackMeans(w: World, r: Request, name: string, value: string)
    ensures var m := AfterHeader(w, r.ar.version.minor, name, value, MarksOf(r));
            var r1 := WithMarks(r, m, CodeFor(w, name, value).Some?);
            && (name == "connection" ==> WithConnection(w, r, value) == r1)
            && (name == "content-length" ==> WithContentLength(w, r, value) == r1)
            && (name == "transfer-encoding" ==> WithTransferEncoding(w, r, value) == r1)
            && (name != "connection" && name != "content-length" && name != "transfer-encoding" ==> r == r1)
  {
    hide CaseEqual, Coding, ErrResponse, ErrorPage;
    ErrorMarks(w, r, 400);
    match Coding(value)
    case Some(te) => ErrorMarks(w, r.(transferEncoding := te), 501);
    case None =>
  }

  /** What one header line does to the request, refused or not. */
  lemma HeaderMeans(w: World, r: Request, s: nat, k: H.Cuts)
    requires H.HeaderAt(r.ib, s, k) && r.ar.headerName == Slice(k.n, k.c - k.n) && r.ar.headerValue == ValueOf(k)
    ensures var r1 := OnHeader(w, r);
            && HeadKept(r.ib, r1.ib, s) && E.TailKept(r.ib, r1.ib, k.c)
            && Text(r1.ib, ValueOf(k)) == Text(r.ib, ValueOf(k))
            && r1 == WithMarks(r, AfterLine(w, r.ar.version.minor, r.ib, k, MarksOf(r)), !Accepted(w, r.ib, k)).(
                     ib := r1.ib,
                     slots := if Known(NameOf(r.ib, k)) then r.slots[NameOf(r.ib, k) := ValueOf(k)] else r.slots)
  {
    hide Lowered, Text, Lookup, NameOf, HeadKept, E.TailKept, H.HeaderAt, AfterHeader, CodeFor, WithConnection,
         WithContentLength, WithTransferEncoding, MarksOf, WithMarks, KeepsParser;
    var name, value := NameOf(r.ib, k), Text(r.ib, ValueOf(k));
    LoweredName(r.ib, s, k);
    CallbackOf(name);
    var r1 := r.(ib := Lowered(r.ib, r.ar.headerName));
    var r2 := if Known(name) then r1.(slots := r1.slots[name := r1.ar.headerValue]) else r1;
    CallbackMeans(w, r2, name, value);
    MarksCarryOver(r, r2);
  }

  lemma MarksCarryOver(r: Request, r': Request)
    requires r' == r.(ib := r'.ib, slots := r'.slots)
    ensures MarksOf(r') == MarksOf(r)
    ensures forall m, refused :: WithMarks(r', m, refused) == WithMarks(r, m, refused).(ib := r'.ib, slots := r'.slots)
  {
  }

  // ---------- a block through the handler ----------

  predicate KeepsRequestLine(a: Archive, a': Archive) {
    a'.httpMethod == a.httpMethod && a'.version == a.version && a'.requestUrl == a.requestUrl && a'.url == a.url
    && a'.bodyReceived == a.bodyReceived
  }

  /** What header lines do to the request: the bytes of r, the lines ks of them, and the request after them. */
  ghost predicate BlockMeaning(w: World, r: Request, ks: seq<H.Cuts>, r': Request) {
    var m := AfterLines(w, r.ar.version.minor, r.ib, ks, MarksOf(r));
    && r' == WithMarks(r, m, !AllAccepted(w, r.ib, ks)).(
               ib := r'.ib, slots := r'.slots, ar := r'.ar, handler := r'.handler)
    && r'.ar.contentLength == m.length && KeepsRequestLine(r.ar, r'.ar)
    && SlotsFilled(r.ib, ks, r.slots, r'.slots)
    && ValuesKept(r.ib, ks, r'.ib)
  }

  lemma NoLines(w: World, r: Request, r': Request)
    requires r' == r.(ar := r'.ar, handler := r'.handler) && KeepsRequestLine(r.ar, r'.ar)
    requires r'.ar.contentLength == r.ar.contentLength
    ensures BlockMeaning(w, r, [], r')
  {
    hide Text;
  }

  lemma SlotsCompose(b: string, b': string, ks: seq<H.Cuts>, before: map<string, Slice>, after: map<string, Slice>)
    requires ks != []
    requires forall name :: LastValue(b', ks[1..], name) == LastValue(b, ks[1..], name)
    requires var name := NameOf(b, ks[0]);
             SlotsFilled(b', ks[1..], if Known(name) then before[name := ValueOf(ks[0])] else before, after)
    ensures SlotsFilled(b, ks, before, after)
  {
    hide NameOf, Known;
  }

  lemma HeadText(b: string, b': string, p: int, s: Slice)
    requires HeadKept(b, b', p) && s.str + s.len <= p
    ensures Text(b', s) == Text(b, s)
  {
  }

  /** Slots and values of the first line and then of the others. */
  lemma SlotsInTurn(r: Request, s: nat, ks: seq<H.Cuts>, r1: Request, r': Request)
    requires ks != [] && H.LinesAt(r.ib, s, ks) && E.TailKept(r.ib, r1.ib, ks[0].c)
    requires Text(r1.ib, ValueOf(ks[0])) == Text(r.ib, ValueOf(ks[0])) && ValuesKept(r.ib, ks[1..], r1.ib)
    requires r1.slots == if Known(NameOf(r.ib, ks[0])) then r.slots[NameOf(r.ib, ks[0]) := ValueOf(ks[0])] else r.slots
    requires SlotsFilled(r1.ib, ks[1..], r1.slots, r'.slots) && ValuesKept(r1.ib, ks[1..], r'.ib)
    requires HeadKept(r1.ib, r'.ib, ks[0].w + 2)
    ensures SlotsFilled(r.ib, ks, r.slots, r'.slots) && ValuesKept(r.ib, ks, r'.ib)
  {
    var k, rest := ks[0], ks[1..];
    LineIsPositive(r.ib, s, k);
    HeadText(r1.ib, r'.ib, k.w + 2, ValueOf(k));
    KeptFromFirst(r.ib, ks, r'.ib);
    hide NameOf, E.TailKept, HeadKept, H.HeaderAt, Known, Text, LastValue, SlotsFilled, ValuesKept;
    KeptInTurn(r.ib, rest, r1.ib, r'.ib);
    forall name
      ensures LastValue(r1.ib, rest, name) == LastValue(r.ib, rest, name)
    {
      ValuesOnTail(r.ib, r1.ib, k.c, k.w + 2, rest, name);
    }
    SlotsCompose(r.ib, r1.ib, ks, r.slots, r'.slots);
  }

  /** The meaning of lines is that of the first and then that of the others. */
  lemma MeaningComposes(w: World, r: Request, s: nat, ks: seq<H.Cuts>, r1: Request, r': Request)
    requires ks != [] && H.LinesAt(r.ib, s, ks)
    requires r1 == OnHeader(w, r.(ar := H.HeaderArchive(r.ar, ks[0])))
    requires BlockMeaning(w, r1, ks[1..], r') && HeadKept(r1.ib, r'.ib, ks[0].w + 2)
    ensures BlockMeaning(w, r, ks, r')
  {
    hide OnHeader, NameOf, CodeFor, AllAccepted, E.TailKept, HeadKept, H.HeaderAt, Known, Text, LastValue, AfterLine,
         SlotsFilled, ValuesKept, WithMarks, MarksOf, Accepted;
    var k, rest := ks[0], ks[1..];
    var minor := r.ar.version.minor;
    var r0 := r.(ar := H.HeaderArchive(r.ar, k));
    HeaderMeans(w, r0, s, k);
    LineIsPositive(r.ib, s, k);
    var m := AfterLine(w, minor, r.ib, k, MarksOf(r));
    var refused := !Accepted(w, r.ib, k);
    MarksOfLine(r, k);
    MarksAreSet(r0, m, refused, r1);
    MarksInTurn(r0, m, refused, r1, AfterLines(w, minor, r1.ib, rest, m), !AllAccepted(w, r1.ib, rest), r');
    MeaningOnTail(w, minor, r.ib, r1.ib, k.c, k.w + 2, rest, m);
    FirstAndRest(w, r.ib, ks);
    SlotsInTurn(r, s, ks, r1, r');
    ArchiveIsFree(r, k, AfterLines(w, minor, r.ib, ks, MarksOf(r)), !AllAccepted(w, r.ib, ks), r');
  }

  lemma MarksOfLine(r: Request, k: H.Cuts)
    ensures MarksOf(r.(ar := H.HeaderArchive(r.ar, k))) == MarksOf(r)
    ensures KeepsRequestLine(r.ar, H.HeaderArchive(r.ar, k))
  {
  }

  lemma MarksAreSet(r: Request, m: Marks, refused: bool, r1: Request)
    requires r1 == WithMarks(r, m, refused).(ib := r1.ib, slots := r1.slots)
    ensures MarksOf(r1) == m && KeepsRequestLine(r.ar, r1.ar)
  {
  }

  /** Marks set twice. */
  lemma MarksInTurn(r: Request, m: Marks, refused: bool, r1: Request, m': Marks, refused': bool, r': Request)
    requires r1 == WithMarks(r, m, refused).(ib := r1.ib, slots := r1.slots)
    requires r' == WithMarks(r1, m', refused').(ib := r'.ib, slots := r'.slots, ar := r'.ar, handler := r'.handler)
    ensures r' == WithMarks(r, m', refused || refused').(
                    ib := r'.ib, slots := r'.slots, ar := r'.ar, handler := r'.handler)
  {
  }

  lemma ArchiveIsFree(r: Request, k: H.Cuts, m: Marks, refused: bool, r': Request)
    ensures WithMarks(r.(ar := H.HeaderArchive(r.ar, k)), m, refused).(
              ib := r'.ib, slots := r'.slots, ar := r'.ar, handler := r'.handler)
         == WithMarks(r, m, refused).(ib := r'.ib, slots := r'.slots, ar := r'.ar, handler := r'.handler)
  {
  }

  lemma KeptInTurn(b: string, ks: seq<H.Cuts>, b1: string, b2: string)
    requires ValuesKept(b, ks, b1) && ValuesKept(b1, ks, b2)
    ensures ValuesKept(b, ks, b2)
  {
    hide Text;
  }

  lemma BlankOnTail(b: string, b': string, p: nat, s: nat, e: nat)
    requires E.TailKept(b, b', p) && p <= s && H.BlankLineAt(b, s, e)
    ensures H.BlankLineAt(b', s, e)
  {
  }

  /** Header lines through the handler: it goes on behind them, and writes only into them. */
  lemma {:induction false} LinesArePassed(w: World, r: Request, ks: seq<H.Cuts>) returns (r1: Request)
    requires H.LineStart(r.ib, r.ar) && H.LinesAt(r.ib, r.ar.nextParsePos, ks)
    ensures H.LineStart(r1.ib, r1.ar) && r1.ar.nextParsePos == H.LinesEnd(r.ar.nextParsePos, ks) >= r.ar.nextParsePos
    ensures HandleHeaders(w, r) == HandleHeaders(w, r1)
    ensures HeadKept(r.ib, r1.ib, r.ar.nextParsePos) && E.TailKept(r.ib, r1.ib, r1.ar.nextParsePos)
    ensures BlockMeaning(w, r, ks, r1)
    ensures r1.handler == if AllAccepted(w, r.ib, ks) then r.handler else NoHandler
    decreases |ks|
  {
    hide Run, WellFormed, OnHeader, BlockMeaning, H.HeaderAt, Accepted, AllAccepted, NameOf, Text, AfterHeader;
    var s := r.ar.nextParsePos;
    if ks == [] {
      r1 := r;
      NoLines(w, r, r);
      NothingRefused(w, r.ib);
    } else {
      var k, rest := ks[0], ks[1..];
      H.FindsTheHeader(r.ib, r.ar, k);
      H.HeaderKeepsLineStart(r.ib, r.ar, k);
      var r0 := r.(ar := H.HeaderArchive(r.ar, k));
      HeaderMeans(w, r0, s, k);
      LineIsPositive(r.ib, s, k);
      var r2 := OnHeader(w, r0);
      LinesOnTail(r.ib, r2.ib, k.c, k.w + 2, rest);
      MeaningOnTail(w, r.ar.version.minor, r.ib, r2.ib, k.c, k.w + 2, rest, MarksOf(r));
      FirstAndRest(w, r.ib, ks);
      E.ReadyAfterHeader(w, r0);
      r1 := LinesArePassed(w, r2, rest);
      MeaningComposes(w, r, s, ks, r2, r1);
    }
  }

  lemma NothingRefused(w: World, b: string)
    ensures AllAccepted(w, b, [])
  {
  }

  /** The handler on a whole block: it goes on to the body, whether or not lines were refused. */
  lemma BlockIsHandled(w: World, r: Request, ks: seq<H.Cuts>, e: nat)
    requires H.LineStart(r.ib, r.ar) && H.LinesAt(r.ib, r.ar.nextParsePos, ks)
    requires H.BlankLineAt(r.ib, H.LinesEnd(r.ar.nextParsePos, ks), e)
    ensures var (ret, r') := HandleHeaders(w, r);
            && ret == OK && r'.handler == OnBody && r'.ar.nextParsePos == e + 2
            && HeadKept(r.ib, r'.ib, r.ar.nextParsePos)
            && BlockMeaning(w, r, ks, r')
  {
    hide Run, WellFormed, OnHeader, H.BlankLineAt, AllAccepted, AfterLines, E.TailKept, H.LinesAt, SlotsFilled,
         ValuesKept;
    var r1 := LinesArePassed(w, r, ks);
    BlankOnTail(r.ib, r1.ib, r1.ar.nextParsePos, r1.ar.nextParsePos, e);
    H.FindsTheBlankLine(r1.ib, r1.ar, e);
  }
}
