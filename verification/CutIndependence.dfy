// Exactly when the way the network cuts the bytes shows in the answer: a condition on the bytes, for all of them.
module CutIndependence {
  import opened Common
  import opened Alphabet
  import opened HttpParser
  import opened Request
  import opened HeaderMeaning
  import opened RequestMeaning
  import opened Stalls
  import C = ChunkIndependence
  import E = EndToEnd
  import H = HeaderGrammar
  import L = RequestLineGrammar

  // ---------- what can be seen of a request ----------

  /**
   * Status code, method, URL, header slots, keep-alive choice, response and interest mask; nothing private to the
   * parser.
   */
  datatype Shown = Shown(
    statusCode: int, httpMethod: HttpMethod, requestUrl: Slice, url: ReqUrl,
    slots: map<string, Slice>, keepAlive: bool, out: Output, ev: Interest)

  function ShownBy(r: Request): Shown {
    Shown(r.statusCode, r.ar.httpMethod, r.ar.requestUrl, r.ar.url, r.slots, r.keepAlive, r.out, r.ev)
  }

  /** Two runs return the same and leave requests that show the same. */
  predicate SameAnswer(x: (Ret, Request), y: (Ret, Request)) {
    x.0 == y.0 && (x.0 != FAULT ==> ShownBy(x.1) == ShownBy(y.1))
  }

  // ---------- what shows behind a stall ----------

  /**
   * The bytes at s, where the lines before have settled m, show in the answer: a header line with a name that has a
   * slot, a byte that breaks the line, or a blank line whose coding was refused or whose body is there.
   */
  ghost predicate Shows(w: World, b: string, s: nat, m: Marks) {
    || (exists h :: H.HeaderAt(b, s, h) && Known(NameOf(b, h)))
    || (exists h, q :: H.BrokenAt(b, s, h, q))
    || (exists e: nat :: H.BlankLineAt(b, s, e) && (m.coding != TeIdentity || |b| - (e + 2) >= m.length))
  }

  /** They do so behind some lines more. */
  ghost predicate RestShows(w: World, minor: nat, b: string, s: nat, ks: seq<H.Cuts>, m: Marks) {
    H.LinesAt(b, s, ks) && Shows(w, b, H.LinesEnd(s, ks), AfterLines(w, minor, b, ks, m))
  }

  lemma BrokenOnTail(b: string, b': string, p: nat, s: nat, h: H.Cuts, q: nat)
    requires E.TailKept(b, b', p) && p <= s && H.BrokenAt(b, s, h, q)
    ensures H.BrokenAt(b', s, h, q)
  {
    assert forall i | s <= i < |b| :: b'[i] == b[i];
  }

  lemma ShowsOnTail(w: World, b: string, b': string, p: nat, s: nat, m: Marks)
    requires E.TailKept(b, b', p) && p <= s && Shows(w, b, s, m)
    ensures Shows(w, b', s, m)
  {
    hide H.HeaderAt, H.BrokenAt, H.BlankLineAt, NameOf, Known;
    if h :| H.HeaderAt(b, s, h) && Known(NameOf(b, h)) {
      LineOnTail(b, b', p, s, h);
      LineMeansTheSame(b, b', p, s, h);
    } else if h, q :| H.BrokenAt(b, s, h, q) {
      BrokenOnTail(b, b', p, s, h, q);
    } else {
      var e: nat :| H.BlankLineAt(b, s, e) && (m.coding != TeIdentity || |b| - (e + 2) >= m.length);
      BlankOnTail(b, b', p, s, e);
      assert |b'| == |b|;
    }
  }

  // ---------- the header stage and what follows ----------

  /** The visit from the header stage on, whether or not the handler has been taken away. */
  function Rest(w: World, r: Request): (Ret, Request)
    requires Ready(r.ib, r.ar)
  {
    var (ret, r1) := HandleHeaders(w, r);
    if ret == OK && r1.handler != NoHandler then HandleBody(w, r1) else (ret, r1)
  }

  lemma DriveIsRest(w: World, r: Request)
    requires Ready(r.ib, r.ar) && r.handler == OnHeaders
    ensures Drive(w, r) == Rest(w, r)
  {
    hide HandleHeaders, HandleBody, WellFormed;
  }

  lemma SameHeadersSameRest(w: World, r: Request, r': Request)
    requires Ready(r.ib, r.ar) && Ready(r'.ib, r'.ar) && E.Same(HandleHeaders(w, r), HandleHeaders(w, r'))
    ensures SameAnswer(Rest(w, r), Rest(w, r'))
  {
    hide HandleHeaders, HandleBody, WellFormed;
    var x, y := HandleHeaders(w, r).1, HandleHeaders(w, r').1;
    assert ShownBy(E.Forget(x)) == ShownBy(x) && ShownBy(E.Forget(y)) == ShownBy(y);
    assert E.Forget(x).handler == x.handler && E.Forget(y).handler == y.handler;
  }

  /** No header line stands where a line is broken or blank. */
  lemma NothingElseStands(b: string, s: nat, e: nat, h: H.Cuts)
    requires H.BlankLineAt(b, s, e)
    ensures !H.HeaderAt(b, s, h)
  {
    if H.HeaderAt(b, s, h) {
      assert NameChar(b[h.n]);
      H.BlanksMeet(b, s, e, h.n);
      H.BlanksMeet(b, s, h.n, e);
    }
  }

  /** Reading a header line in part or in full leaves what the request line gave. */
  lemma LineGivesTheSame(b: string, a: Archive)
    requires H.LineStart(b, a)
    ensures Parse(HeaderLine, b, a).status == Again ==> KeepsRequestLine(a, Parse(HeaderLine, b, a).ar)
  {
    var s := a.nextParsePos;
    var line := H.RunIsSound(b, s, a, s, a, H.Cuts(0, 0, 0, 0));
    hide Run, WellFormed, H.HeaderAt, H.BlankLineAt, H.BareLfAt, H.Blanks, H.NamePart, H.ValuePart, H.BrokenAt;
  }

  /** Without another line, the visit goes on to answer exactly when what is there shows. */
  lemma LastPartShows(w: World, r: Request)
    requires H.LineStart(r.ib, r.ar) && NoLineAt(r.ib, r.ar.nextParsePos) && r.handler == NoHandler
             && r.ar.bodyReceived == 0
    ensures Rest(w, r).0 == AGAIN <==> !Shows(w, r.ib, r.ar.nextParsePos, MarksOf(r))
    ensures Rest(w, r).0 == AGAIN ==> ShownBy(Rest(w, r).1) == ShownBy(r)
  {
    hide Run, WellFormed, H.HeaderAt, H.BlankLineAt, H.BrokenAt, HandleHeaders, HandleBody, Known, NameOf,
         H.BlankLineArchive;
    var s := r.ar.nextParsePos;
    LastAnswer(w, r);
    H.AcceptsExactlyTheGrammar(r.ib, r.ar);
    H.InvalidExactlyWhen(r.ib, r.ar);
    forall e: nat | H.BlankLineAt(r.ib, s, e)
      ensures Parse(HeaderLine, r.ib, r.ar).ar.nextParsePos == e + 2
    {
      BlankLineIsPassed(w, r, e);
    }
    var a := Parse(HeaderLine, r.ib, r.ar);
    LineGivesTheSame(r.ib, r.ar);
    if a.status == CrlfLine {
      var e: nat :| H.BlankLineAt(r.ib, s, e);
      BlankLineIsPassed(w, r, e);
    }
  }

  lemma BlankLineIsPassed(w: World, r: Request, e: nat)
    requires H.LineStart(r.ib, r.ar) && r.ar.bodyReceived == 0 && H.BlankLineAt(r.ib, r.ar.nextParsePos, e)
    ensures var m := MarksOf(r);
            && Parse(HeaderLine, r.ib, r.ar).ar.nextParsePos == e + 2
            && (Rest(w, r).0 == AGAIN <==> !(m.coding != TeIdentity || |r.ib| - (e + 2) >= m.length))
            && (Rest(w, r).0 == AGAIN ==> ShownBy(Rest(w, r).1) == ShownBy(r))
  {
    H.FindsTheBlankLine(r.ib, r.ar, e);
    hide Run, WellFormed, H.BlankLineAt, HandleBody, OnHeader;
    var r1 := r.(ar := H.BlankLineArchive(r.ar, e), handler := OnBody);
    assert HandleHeaders(w, r) == (OK, r1);
    BodyIsHandled(w, r1);
  }

  // ---------- lines one after another ----------

  lemma {:induction false} LinesInParts(b: string, s: nat, ks: seq<H.Cuts>, i: nat)
    requires H.LinesAt(b, s, ks) && i <= |ks|
    ensures H.LinesAt(b, s, ks[..i])
    ensures i < |ks| ==> H.HeaderAt(b, H.LinesEnd(s, ks[..i]), ks[i])
    decreases |ks|
  {
    hide H.HeaderAt;
    if i > 0 {
      LinesInParts(b, ks[0].w + 2, ks[1..], i - 1);
      assert ks[..i][1..] == ks[1..][..i - 1];
      assert i > 1 ==> ks[..i][i - 1] == ks[1..][..i - 1][i - 2];
    }
  }

  /** The meaning of lines is that of the first ones and then that of the others. */
  lemma {:induction false} LinesInTurn(w: World, minor: nat, b: string, s: nat, ks: seq<H.Cuts>, ks': seq<H.Cuts>,
      m: Marks)
    requires H.LinesAt(b, s, ks) && H.LinesAt(b, H.LinesEnd(s, ks), ks')
    ensures H.LinesAt(b, s, ks + ks') && H.LinesEnd(s, ks + ks') == H.LinesEnd(H.LinesEnd(s, ks), ks')
    ensures AfterLines(w, minor, b, ks + ks', m) == AfterLines(w, minor, b, ks', AfterLines(w, minor, b, ks, m))
    ensures AllAccepted(w, b, ks + ks') ==> AllAccepted(w, b, ks)
    decreases |ks|
  {
    hide H.HeaderAt, AfterLine, Accepted;
    assert forall i | 0 <= i < |ks| :: (ks + ks')[i] == ks[i];
    if ks == [] {
      assert ks + ks' == ks';
    } else {
      LinesInTurn(w, minor, b, ks[0].w + 2, ks[1..], ks', AfterLine(w, minor, b, ks[0], m));
      assert (ks + ks')[1..] == ks[1..] + ks';
    }
  }

  /** A line with a slot leaves its position there, or that of a later one. */
  lemma {:induction false} SlotOfLine(b: string, s: nat, ks: seq<H.Cuts>, i: nat)
    requires H.LinesAt(b, s, ks) && i < |ks|
    ensures LastValue(b, ks, NameOf(b, ks[i])).Some? && LastValue(b, ks, NameOf(b, ks[i])).value.str >= s
    decreases |ks|
  {
    hide H.HeaderAt, NameOf;
    LineIsPositive(b, s, ks[0]);
    if i > 0 {
      SlotOfLine(b, ks[0].w + 2, ks[1..], i - 1);
    } else {
      ValuesOnTail(b, b, s, s, ks, NameOf(b, ks[0]));
    }
  }

  /** Lines without a name that has a slot settle nothing. */
  lemma {:induction false} OtherLinesSettleNothing(w: World, minor: nat, b: string, ks: seq<H.Cuts>, m: Marks)
    requires forall i | 0 <= i < |ks| :: !Known(NameOf(b, ks[i]))
    ensures AllAccepted(w, b, ks) && AfterLines(w, minor, b, ks, m) == m
    ensures forall name | Known(name) :: LastValue(b, ks, name) == None
    decreases |ks|
  {
    hide NameOf, Text;
    if ks != [] {
      CallbackOf(NameOf(b, ks[0]));
      hide Known;
      assert AfterLine(w, minor, b, ks[0], m) == m && Accepted(w, b, ks[0]);
      hide Accepted, AfterLine, AllAccepted;
      assert forall i | 0 <= i < |ks[1..]| :: ks[1..][i] == ks[i + 1];
      OtherLinesSettleNothing(w, minor, b, ks[1..], m);
      FirstAndRest(w, b, ks);
    }
  }

  // ---------- more bytes behind a stall ----------

  /** The visit, run on over more lines. */
  lemma RestBehindLines(w: World, y: Request, p: nat, minor: nat, m: Marks, ks: seq<H.Cuts>) returns (y1: Request)
    requires StalledAt(y, p, minor, m) && H.LinesAt(y.ib, p, ks) && NoLineAt(y.ib, H.LinesEnd(p, ks))
    ensures Ready(y.ib, y.ar) && H.LineStart(y1.ib, y1.ar) && y1.ar.nextParsePos == H.LinesEnd(p, ks) >= p
    ensures NoLineAt(y1.ib, y1.ar.nextParsePos) && y1.handler == NoHandler && y1.ar.bodyReceived == 0
    ensures E.TailKept(y.ib, y1.ib, y1.ar.nextParsePos)
    ensures Rest(w, y) == Rest(w, y1)
    ensures BlockMeaning(w, y, ks, y1) && MarksOf(y1) == AfterLines(w, minor, y.ib, ks, m)
  {
    hide Run, WellFormed, HandleHeaders, HandleBody, H.LinesAt, SlotsFilled, ValuesKept, AllAccepted, AfterLines,
         HeadKept, E.TailKept, H.LinesEnd, NoLineAt;
    y1 := LinesArePassed(w, y, ks);
    NoLineOnTail(y.ib, y1.ib, y1.ar.nextParsePos, y1.ar.nextParsePos);
  }

  /** A broken or a blank line: the visit is answered. */
  lemma LastShows(w: World, y: Request, p: nat, minor: nat, m: Marks, ks: seq<H.Cuts>)
    requires StalledAt(y, p, minor, m) && RestShows(w, minor, y.ib, p, ks, m) && NoLineAt(y.ib, H.LinesEnd(p, ks))
    ensures Ready(y.ib, y.ar) && Rest(w, y).0 != AGAIN
  {
    hide Run, WellFormed, Rest, Shows, H.LinesAt, AfterLines, H.LinesEnd, E.TailKept, NoLineAt, BlockMeaning;
    var y1 := RestBehindLines(w, y, p, minor, m, ks);
    ShowsOnTail(w, y.ib, y1.ib, y1.ar.nextParsePos, y1.ar.nextParsePos, MarksOf(y1));
    LastPartShows(w, y1);
  }

  /** A line with a slot: the slot then lies behind the stall. */
  lemma SlotShows(w: World, y: Request, p: nat, minor: nat, m: Marks, all: seq<H.Cuts>, i: nat)
    requires StalledAt(y, p, minor, m) && H.LinesAt(y.ib, p, all) && NoLineAt(y.ib, H.LinesEnd(p, all))
    requires i < |all| && Known(NameOf(y.ib, all[i]))
    ensures Ready(y.ib, y.ar) && (Rest(w, y).0 == AGAIN ==> ShownBy(Rest(w, y).1) != ShownBy(y))
  {
    hide Run, WellFormed, Rest, Shows, H.LinesAt, AfterLines, H.LinesEnd, E.TailKept, NoLineAt, Known, NameOf,
         LastValue, AllAccepted, ValuesKept;
    SlotOfLine(y.ib, p, all, i);
    var y1 := RestBehindLines(w, y, p, minor, m, all);
    LastPartShows(w, y1);
    var name := NameOf(y.ib, all[i]);
    assert y1.slots[name].str >= p;
  }

  lemma RestThatShows(w: World, y: Request, p: nat, minor: nat, m: Marks, ks: seq<H.Cuts>)
    requires p <= |y.ib| && StalledAt(y, p, minor, m) && RestShows(w, minor, y.ib, p, ks, m)
    ensures Ready(y.ib, y.ar) && !(Rest(w, y).0 == AGAIN && ShownBy(Rest(w, y).1) == ShownBy(y))
  {
    var b, s := y.ib, H.LinesEnd(p, ks);
    hide Run, WellFormed, Rest, H.LinesAt, AfterLines, StalledAt, Known, NameOf, H.HeaderAt, H.BrokenAt, H.BlankLineAt,
         H.LinesEnd;
    if h :| H.HeaderAt(b, s, h) && Known(NameOf(b, h)) {
      var all := AllLines(b, p);
      LineBehindLines(w, b, p, ks, h);
      LinesAreFront(b, p, ks + [h], all);
      assert all[|ks|] == h;
      SlotShows(w, y, p, minor, m, all, |ks|);
    } else {
      if h, q :| H.BrokenAt(b, s, h, q) {
        forall k
          ensures !H.HeaderAt(b, s, k)
        {
          H.BrokenIsNoHeader(b, s, h, q, k);
        }
      } else {
        var e: nat :| H.BlankLineAt(b, s, e);
        forall k
          ensures !H.HeaderAt(b, s, k)
        {
          NothingElseStands(b, s, e, k);
        }
      }
      LastShows(w, y, p, minor, m, ks);
    }
  }

  lemma LineBehindLines(w: World, b: string, s: nat, ks: seq<H.Cuts>, h: H.Cuts)
    requires H.LinesAt(b, s, ks) && H.HeaderAt(b, H.LinesEnd(s, ks), h)
    ensures H.LinesAt(b, s, ks + [h])
  {
    hide H.HeaderAt;
    assert [h][1..] == [];
    LinesInTurn(w, 0, b, s, ks, [h], FirstMarks(Version(0, 0)));
  }

  lemma SlotsAreLeft(b: string, ks: seq<H.Cuts>, before: map<string, Slice>, after: map<string, Slice>)
    requires SlotsFilled(b, ks, before, after) && forall name | Known(name) :: LastValue(b, ks, name) == None
    ensures after == before
  {
    hide Known;
  }

  /** And the other way round: whatever makes the answer another one is in the bytes. */
  lemma DifferenceIsThere(w: World, y: Request, p: nat, minor: nat, m: Marks) returns (ks: seq<H.Cuts>)
    requires p <= |y.ib| && StalledAt(y, p, minor, m)
    requires Ready(y.ib, y.ar) && !(Rest(w, y).0 == AGAIN && ShownBy(Rest(w, y).1) == ShownBy(y))
    ensures RestShows(w, minor, y.ib, p, ks, m)
  {
    hide Run, WellFormed, Rest, Shows, H.LinesAt, AfterLines, E.TailKept, NoLineAt, Known, NameOf, LastValue,
         AllAccepted, ValuesKept, H.HeaderAt, H.LinesEnd, SlotsFilled;
    ks := AllLines(y.ib, p);
    if i :| 0 <= i < |ks| && Known(NameOf(y.ib, ks[i])) {
      LinesInParts(y.ib, p, ks, i);
      NameShows(w, y.ib, H.LinesEnd(p, ks[..i]), AfterLines(w, minor, y.ib, ks[..i], m), ks[i]);
      ks := ks[..i];
    } else {
      var y1 := RestBehindLines(w, y, p, minor, m, ks);
      OtherLinesSettleNothing(w, minor, y.ib, ks, m);
      SlotsAreLeft(y.ib, ks, y.slots, y1.slots);
      assert ShownBy(y1) == ShownBy(y);
      LastPartShows(w, y1);
      TailsAgree(y.ib, y1.ib, y1.ar.nextParsePos);
      ShowsOnTail(w, y1.ib, y.ib, y1.ar.nextParsePos, y1.ar.nextParsePos, m);
    }
  }

  lemma NameShows(w: World, b: string, s: nat, m: Marks, h: H.Cuts)
    requires H.HeaderAt(b, s, h) && Known(NameOf(b, h))
    ensures Shows(w, b, s, m)
  {
  }

  // ---------- all the bytes ----------

  lemma StalledAtOnLonger(x: Request, p: nat, minor: nat, m: Marks, c: string)
    requires StalledAt(x, p, minor, m)
    ensures StalledAt(E.Plus(x, c), p, minor, m)
  {
  }

  /** More bytes behind a stall are handled from there. */
  lemma RestBehindStall(w: World, b: string, c: string)
    requires E.Stalled(AtOnce(w, b))
    ensures var y := E.Plus(AtOnce(w, b).1, c);
            Ready(y.ib, y.ar) && SameAnswer(AtOnce(w, b + c), Rest(w, y))
  {
    hide AtOnce, Rest, Run, WellFormed, HandleHeaders, E.Same;
    var r := StallGoesOn(w, b, c);
    DriveIsRest(w, r);
    SameHeadersSameRest(w, E.Plus(AtOnce(w, b).1, c), r);
  }

  lemma BehindIsKept(x: Request, b: string, c: string)
    requires |x.ib| == |b|
    ensures E.TailKept(b + c, E.Plus(x, c).ib, |b|) && ShownBy(E.Plus(x, c)) == ShownBy(x)
  {
    assert forall i | |b| <= i < |b + c| :: (b + c)[i] == c[i - |b|];
    assert forall i | |b| <= i < |b + c| :: (x.ib + c)[i] == c[i - |b|];
  }

  lemma RefusedIsLine(w: World, b: string, k: L.Cuts, ks: seq<H.Cuts>)
    requires Refused(w, b, k, ks)
    ensures L.LineAt(b, k) && H.LinesAt(b, k.r + 2, ks) && !AllAccepted(w, b, ks)
  {
    hide L.LineAt, H.LinesAt, AllAccepted, FileAsked;
  }

  /** The bytes up to the refused line stall; what follows is handled from there. */
  lemma BehindRefused(w: World, b: string, k: L.Cuts, ks: seq<H.Cuts>, c: string) returns (y: Request)
    requires Refused(w, b, k, ks) && H.LinesEnd(k.r + 2, ks) == |b|
    ensures AtOnce(w, b).0 == AGAIN && E.Stalled(AtOnce(w, b)) && ShownBy(y) == ShownBy(AtOnce(w, b).1)
    ensures StalledAt(y, |b|, L.LineVersion(b, k).minor, MarksAfter(w, b, k, ks))
    ensures Ready(y.ib, y.ar) && SameAnswer(AtOnce(w, b + c), Rest(w, y))
    ensures E.TailKept(b + c, y.ib, |b|)
  {
    RefusedIsLine(w, b, k, ks);
    hide Drive, Rest, Run, WellFormed, HandleHeaders, Refused, MarksAfter, L.LineVersion, L.LineAt, H.LinesAt,
         H.LinesEnd, E.TailKept, ShownBy, SameAnswer;
    RefusedStalls(w, b, k, ks);
    var m, minor := MarksAfter(w, b, k, ks), L.LineVersion(b, k).minor;
    var x := AtOnce(w, b).1;
    y := E.Plus(x, c);
    StalledAtOnLonger(x, |b|, minor, m, c);
    RestBehindStall(w, b, c);
    BehindIsKept(x, b, c);
  }

  lemma SplitAt(b: string, p: nat)
    requires p <= |b|
    ensures b[..p] + b[p..] == b
  {
  }

  lemma TailIsAsLong(b: string, b': string, p: nat)
    requires E.TailKept(b, b', p)
    ensures |b'| == |b|
  {
  }

  /** The same for the bytes cut behind the lines. */
  lemma BehindCut(w: World, b: string, k: L.Cuts, ks: seq<H.Cuts>) returns (y: Request)
    requires Refused(w, b, k, ks)
    ensures H.LinesEnd(k.r + 2, ks) <= |b| && L.LineAt(b, k)
    ensures var p := H.LinesEnd(k.r + 2, ks);
            && AtOnce(w, b[..p]).0 == AGAIN && ShownBy(y) == ShownBy(AtOnce(w, b[..p]).1)
            && StalledAt(y, p, L.LineVersion(b, k).minor, MarksAfter(w, b, k, ks))
            && Ready(y.ib, y.ar) && SameAnswer(AtOnce(w, b), Rest(w, y))
            && E.TailKept(b, y.ib, p) && |y.ib| == |b|
  {
    hide AtOnce, Refused, Rest, ShownBy, SameAnswer, StalledAt, MarksAfter, WellFormed, H.LinesEnd, L.LineAt,
         L.LineVersion, E.TailKept, E.Stalled;
    RefusedIsLine(w, b, k, ks);
    RefusedLinesInside(w, b, k, ks);
    var p := H.LinesEnd(k.r + 2, ks);
    SplitAt(b, p);
    var front, back := b[..p], b[p..];
    RefusedOnLonger(w, front, back, k, ks);
    y := BehindRefused(w, front, k, ks, back);
    TailIsAsLong(b, y.ib, p);
  }

  /** Behind a request line whose file is there, lines with a refused one among them are followed by bytes that show. */
  ghost predicate ShowsBehind(w: World, b: string, k: L.Cuts, ks: seq<H.Cuts>) {
    Refused(w, b, k, ks) && Shows(w, b, H.LinesEnd(k.r + 2, ks), MarksAfter(w, b, k, ks))
  }

  /** Then the cut right behind the lines is one that matters. */
  lemma CutThatShows(w: World, b: string, k: L.Cuts, ks: seq<H.Cuts>) returns (chunks: seq<string>)
    requires ShowsBehind(w, b, k, ks)
    ensures CutOf(b, chunks) && E.Stalled(InChunks(w, chunks)) && !SameAnswer(InChunks(w, chunks), AtOnce(w, b))
  {
    hide AtOnce, InChunks, Refused, Shows, Rest, ShownBy, StalledAt, MarksAfter, WellFormed, H.LinesEnd, L.LineAt,
         L.LineVersion, E.TailKept, E.Stalled;
    var y := BehindCut(w, b, k, ks);
    var p, m, minor := H.LinesEnd(k.r + 2, ks), MarksAfter(w, b, k, ks), L.LineVersion(b, k).minor;
    ShowsOnTail(w, b, y.ib, p, p, m);
    NothingFurther(w, minor, y.ib, p, m);
    RestThatShows(w, y, p, minor, m, []);
    chunks := CutBehind(w, b, k, ks);
  }

  lemma NothingFurther(w: World, minor: nat, b: string, s: nat, m: Marks)
    requires Shows(w, b, s, m)
    ensures RestShows(w, minor, b, s, [], m)
  {
    hide Shows;
  }

  /** A visit that stalls in the middle of a line shows what the lines before it have settled. */
  lemma StallShowsLines(w: World, b: string, k: L.Cuts, ks: seq<H.Cuts>)
    requires E.Stalled(AtOnce(w, b)) && Refused(w, b, k, ks) && NoLineAt(b, H.LinesEnd(k.r + 2, ks))
    ensures H.LinesEnd(k.r + 2, ks) <= |b|
    ensures ShownBy(AtOnce(w, b).1) == ShownBy(AtOnce(w, b[..H.LinesEnd(k.r + 2, ks)]).1)
  {
    hide AtOnce, Refused, Shows, Rest, ShownBy, MarksAfter, WellFormed, H.LinesEnd, L.LineAt, L.LineVersion, E.TailKept,
         NoLineAt, H.LineStart;
    var y := BehindCut(w, b, k, ks);
    var p := H.LinesEnd(k.r + 2, ks);
    NoLineOnTail(b, y.ib, p, p);
    LastPartShows(w, y);
  }

  /** An answer that depends on the cut has a refused line behind it, and bytes behind that which show. */
  lemma BehindOtherAnswer(w: World, b: string, chunks: seq<string>) returns (k: L.Cuts, ks: seq<H.Cuts>)
    requires CutOf(b, chunks) && !SameAnswer(InChunks(w, chunks), AtOnce(w, b))
    ensures ShowsBehind(w, b, k, ks)
  {
    hide AtOnce, InChunks, Refused, Shows, ShowsBehind, RestShows, Rest, ShownBy, StalledAt, MarksAfter, WellFormed,
         H.LinesEnd, L.LineAt, L.LineVersion, E.TailKept, E.Outcome, NoLineAt;
    if !E.Stalled(InChunks(w, chunks)) {
      SameUnlessStalled(w, b, chunks);
    }
    var front, back;
    k, ks, front, back := StallInFront(w, b, chunks);
    var p := H.LinesEnd(k.r + 2, ks);
    StallShowsLines(w, front, k, ks);
    SameOutcomeShowsTheSame(InChunks(w, chunks).1, AtOnce(w, front).1);
    assert front[..p] == b[..p];
    var y := BehindCut(w, b, k, ks);
    var more := DifferenceIsThere(w, y, p, L.LineVersion(b, k).minor, MarksAfter(w, b, k, ks));
    TailsAgree(b, y.ib, p);
    ks := MoreThatShows(w, b, k, ks, y.ib, more);
  }

  lemma MoreThatShows(w: World, b: string, k: L.Cuts, ks: seq<H.Cuts>, b': string, more: seq<H.Cuts>)
      returns (all: seq<H.Cuts>)
    requires Refused(w, b, k, ks) && E.TailKept(b', b, H.LinesEnd(k.r + 2, ks))
    requires RestShows(w, L.LineVersion(b, k).minor, b', H.LinesEnd(k.r + 2, ks), more, MarksAfter(w, b, k, ks))
    ensures ShowsBehind(w, b, k, all)
  {
    hide Shows, E.TailKept, H.LinesAt, AllAccepted, AfterLines, Servable, FileAsked, L.LineVersion, H.LinesEnd,
         L.LineAt, ValuesKept;
    RefusedIsLine(w, b, k, ks);
    var p := H.LinesEnd(k.r + 2, ks);
    var minor, m := L.LineVersion(b, k).minor, MarksAfter(w, b, k, ks);
    LinesOnTail(b', b, p, p, more);
    MeaningOnTail(w, minor, b', b, p, p, more, m);
    ShowsOnTail(w, b', b, p, H.LinesEnd(p, more), AfterLines(w, minor, b, more, m));
    LinesInTurn(w, minor, b, k.r + 2, ks, more, FirstMarks(L.LineVersion(b, k)));
    all := ks + more;
  }

  /** The same request but for its input bytes and the count of them: the parser's own fields are compared too. */
  predicate SameEnd(x: (Ret, Request), y: (Ret, Request)) {
    x.0 == y.0 && (x.0 != FAULT ==> E.Outcome(x.1) == E.Outcome(y.1))
  }

  lemma SameOutcomeShowsTheSame(x: Request, y: Request)
    ensures E.Outcome(x) == E.Outcome(y) ==> ShownBy(x) == ShownBy(y)
  {
    assert ShownBy(E.Outcome(x)) == ShownBy(x) && ShownBy(E.Outcome(y)) == ShownBy(y);
  }

  lemma SameUnlessStalled(w: World, b: string, chunks: seq<string>)
    requires CutOf(b, chunks) && !E.Stalled(InChunks(w, chunks))
    ensures SameEnd(InChunks(w, chunks), AtOnce(w, b)) && SameAnswer(InChunks(w, chunks), AtOnce(w, b))
  {
    hide Drive, E.Feed, E.Waiting, E.Outcome, WellFormed, ShownBy;
    E.FreshIsWaiting();
    E.PipelineIgnoresCuts(w, FRESH, chunks);
    NewIsPlus(b);
    SameOutcomeShowsTheSame(InChunks(w, chunks).1, AtOnce(w, b).1);
  }

  /**
   * For all bytes: some way of cutting them is answered otherwise than one visit with all of them exactly when, behind
   * a request line whose file is there, header lines with a refused one among them are followed by bytes that show.
   */
  lemma CutsMatterExactlyWhen(w: World, b: string)
    ensures (exists chunks | CutOf(b, chunks) :: !SameAnswer(InChunks(w, chunks), AtOnce(w, b)))
       <==> exists k, ks :: ShowsBehind(w, b, k, ks)
  {
    hide AtOnce, InChunks, SameAnswer, ShowsBehind;
    if chunks :| CutOf(b, chunks) && !SameAnswer(InChunks(w, chunks), AtOnce(w, b)) {
      var k, ks := BehindOtherAnswer(w, b, chunks);
    }
    if k, ks :| ShowsBehind(w, b, k, ks) {
      var chunks := CutThatShows(w, b, k, ks);
    }
  }

  // ---------- whole requests ----------

  /** A whole request for a file that is there, whatever its headers. */
  ghost predicate WholeRequest(w: World, b: string, k: L.Cuts, ks: seq<H.Cuts>, e: nat) {
    && Servable(b, k) && FileAsked(w, b, k) != Missing
    && H.LinesAt(b, k.r + 2, ks) && H.BlankLineAt(b, H.LinesEnd(k.r + 2, ks), e)
  }

  /** Behind a refused line there is one with a slot, or a coding is refused, or all of the body is there. */
  ghost predicate ShowsInRequest(w: World, b: string, k: L.Cuts, ks: seq<H.Cuts>, e: nat)
    requires L.LineAt(b, k)
  {
    || (exists i, j :: 0 <= i < j < |ks| && !Accepted(w, b, ks[i]) && Known(NameOf(b, ks[j])))
    || (!AllAccepted(w, b, ks)
         && (MarksAfter(w, b, k, ks).coding != TeIdentity || |b| - (e + 2) >= MarksAfter(w, b, k, ks).length))
  }

  /**
   * In particular for a whole request for a file that is there: all its header lines are accepted exactly when no run
   * of it stalls, and every run of it is answered as one visit is exactly when nothing shows behind a refused line.
   */
  lemma WholeRequestIgnoresCutsExactlyWhen(w: World, b: string, k: L.Cuts, ks: seq<H.Cuts>, e: nat)
    requires WholeRequest(w, b, k, ks, e)
    ensures AllAccepted(w, b, ks) <==> forall chunks | CutOf(b, chunks) :: !E.Stalled(InChunks(w, chunks))
    ensures !ShowsInRequest(w, b, k, ks, e)
            <==> forall chunks | CutOf(b, chunks) :: SameAnswer(InChunks(w, chunks), AtOnce(w, b))
  {
    WholeRequestStallsExactlyWhen(w, b, k, ks, e);
    hide AtOnce, InChunks, SameAnswer, E.Stalled, WholeRequest, ShowsInRequest, ShowsBehind, AllAccepted, L.LineAt;
    CutsMatterExactlyWhen(w, b);
    if k', ks' :| ShowsBehind(w, b, k', ks') {
      FrontThatShows(w, b, k, ks, e, k', ks');
    }
    if ShowsInRequest(w, b, k, ks, e) {
      var front := ShowsBehindFront(w, b, k, ks, e);
    }
  }

  lemma WholeRequestStallsExactlyWhen(w: World, b: string, k: L.Cuts, ks: seq<H.Cuts>, e: nat)
    requires WholeRequest(w, b, k, ks, e)
    ensures L.LineAt(b, k)
    ensures AllAccepted(w, b, ks) <==> forall chunks | CutOf(b, chunks) :: !E.Stalled(InChunks(w, chunks))
  {
    hide AtOnce, InChunks, E.Stalled, AllAccepted, Servable, FileAsked, H.LinesAt, H.BlankLineAt;
    StallsExactlyWhen(w, b);
    if k', ks' :| Refused(w, b, k', ks') {
      RefusedInFront(w, b, k, ks, e, k', ks');
    }
    if !AllAccepted(w, b, ks) {
      assert Refused(w, b, k, ks);
    }
    RequestIsLine(w, b, k, ks, e);
  }

  lemma RequestIsLine(w: World, b: string, k: L.Cuts, ks: seq<H.Cuts>, e: nat)
    requires WholeRequest(w, b, k, ks, e)
    ensures L.LineAt(b, k) && H.LinesAt(b, k.r + 2, ks)
    ensures H.BlankLineAt(b, H.LinesEnd(k.r + 2, ks), e) && NoLineAt(b, H.LinesEnd(k.r + 2, ks))
  {
    hide L.LineAt, H.LinesAt, H.BlankLineAt, FileAsked, H.LinesEnd, H.HeaderAt;
    OnlyBlankLineStands(b, H.LinesEnd(k.r + 2, ks), e);
  }

  /** Lines with a refused one among them are the first ones of the request. */
  lemma RefusedInFront(w: World, b: string, k: L.Cuts, ks: seq<H.Cuts>, e: nat, k': L.Cuts, ks': seq<H.Cuts>)
    requires WholeRequest(w, b, k, ks, e) && Refused(w, b, k', ks')
    ensures k' == k && ks' <= ks && !AllAccepted(w, b, ks)
  {
    hide L.LineAt, H.BlankLineAt, H.LinesEnd, H.LinesAt, NoLineAt, AllAccepted, Refused, WholeRequest;
    RequestIsLine(w, b, k, ks, e);
    RefusedIsLine(w, b, k', ks');
    L.CutsAreUnique(b, k, k');
    LinesAreFront(b, k.r + 2, ks', ks);
    RefusedLine(w, b, ks', ks);
  }

  lemma RefusedLine(w: World, b: string, front: seq<H.Cuts>, ks: seq<H.Cuts>)
    requires front <= ks && !AllAccepted(w, b, front)
    ensures exists i :: 0 <= i < |front| && !Accepted(w, b, ks[i])
    ensures !AllAccepted(w, b, ks)
  {
    hide Accepted;
    var i :| 0 <= i < |front| && !Accepted(w, b, front[i]);
    assert ks[i] == front[i];
  }

  lemma FrontThatShows(w: World, b: string, k: L.Cuts, ks: seq<H.Cuts>, e: nat, k': L.Cuts, ks': seq<H.Cuts>)
    requires WholeRequest(w, b, k, ks, e) && ShowsBehind(w, b, k', ks')
    ensures L.LineAt(b, k) && ShowsInRequest(w, b, k, ks, e)
  {
    hide H.BlankLineAt, H.HeaderAt, H.LinesEnd, L.LineAt, Known, NameOf, Servable, FileAsked, MarksAfter, Accepted,
         H.BrokenAt, WholeRequest, H.LinesAt, NoLineAt, AllAccepted;
    RefusedInFront(w, b, k, ks, e, k', ks');
    RequestIsLine(w, b, k, ks, e);
    var s, i := H.LinesEnd(k.r + 2, ks'), |ks'|;
    if ks' == ks {
      OnlyBlankLineStands(b, s, e);
    } else {
      LinesInParts(b, k.r + 2, ks, i);
      assert ks[..i] == ks';
      OnlyHeaderStands(b, s, ks[i]);
      RefusedLine(w, b, ks', ks);
    }
  }

  lemma OnlyBlankLineStands(b: string, s: nat, e: nat)
    requires H.BlankLineAt(b, s, e)
    ensures forall h :: !H.HeaderAt(b, s, h)
    ensures forall h, q :: !H.BrokenAt(b, s, h, q)
    ensures forall e': nat | H.BlankLineAt(b, s, e') :: e' == e
  {
    hide H.HeaderAt, H.BrokenAt;
    forall h
      ensures !H.HeaderAt(b, s, h)
    {
      NothingElseStands(b, s, e, h);
    }
    forall h, q | H.BrokenAt(b, s, h, q)
      ensures false
    {
      H.BrokenIsNoBlankLine(b, s, h, q, e);
    }
    forall e': nat | H.BlankLineAt(b, s, e')
      ensures e' == e
    {
      H.BlanksMeet(b, s, e, e');
    }
  }

  lemma OnlyHeaderStands(b: string, s: nat, h: H.Cuts)
    requires H.HeaderAt(b, s, h)
    ensures forall h' | H.HeaderAt(b, s, h') :: h' == h
    ensures forall h', q :: !H.BrokenAt(b, s, h', q)
    ensures forall e: nat :: !H.BlankLineAt(b, s, e)
  {
    hide H.HeaderAt, H.BrokenAt, H.BlankLineAt;
    forall h' | H.HeaderAt(b, s, h')
      ensures h' == h
    {
      H.HeaderIsUnique(b, s, h, h');
    }
    forall h', q | H.BrokenAt(b, s, h', q)
      ensures false
    {
      H.BrokenIsNoHeader(b, s, h', q, h);
    }
    forall e: nat | H.BlankLineAt(b, s, e)
      ensures false
    {
      NothingElseStands(b, s, e, h);
    }
  }

  lemma ShowsBehindFront(w: World, b: string, k: L.Cuts, ks: seq<H.Cuts>, e: nat) returns (front: seq<H.Cuts>)
    requires WholeRequest(w, b, k, ks, e) && L.LineAt(b, k) && ShowsInRequest(w, b, k, ks, e)
    ensures ShowsBehind(w, b, k, front)
  {
    hide H.BlankLineAt, H.HeaderAt, H.LinesEnd, L.LineAt, Known, NameOf, Servable, FileAsked, MarksAfter, Accepted,
         H.BrokenAt, H.LinesAt;
    if i, j :| 0 <= i < j < |ks| && !Accepted(w, b, ks[i]) && Known(NameOf(b, ks[j])) {
      front := ks[..j];
      LinesInParts(b, k.r + 2, ks, j);
      assert front[i] == ks[i];
    } else {
      front := ks;
    }
  }

  lemma AcceptedIgnoresCuts(w: World, b: string, k: L.Cuts, ks: seq<H.Cuts>, e: nat, chunks: seq<string>)
    requires WellAsked(w, b, k, ks, e) && CutOf(b, chunks)
    ensures !E.Stalled(InChunks(w, chunks)) && SameEnd(InChunks(w, chunks), AtOnce(w, b))
  {
    hide AtOnce, InChunks, E.Stalled, AllAccepted, Servable, FileAsked, H.LinesAt, H.BlankLineAt, SameEnd;
    WholeRequestStallsExactlyWhen(w, b, k, ks, e);
    SameUnlessStalled(w, b, chunks);
  }

  /**
   * Everything else ends the same way however it is cut: no complete or no valid request line, a version that is not
   * served, a path that is not set or a file that is not there.
   */
  lemma OthersIgnoreCuts(w: World, b: string, chunks: seq<string>)
    requires forall k | Servable(b, k) :: FileAsked(w, b, k) == Missing
    requires CutOf(b, chunks)
    ensures !E.Stalled(InChunks(w, chunks)) && SameEnd(InChunks(w, chunks), AtOnce(w, b))
  {
    hide AtOnce, InChunks, E.Stalled, SameEnd, Servable, FileAsked;
    StallsExactlyWhen(w, b);
    SameUnlessStalled(w, b, chunks);
  }
}
