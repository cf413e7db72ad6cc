// Runs that stall: a header line is refused, but the header loop goes on and runs out of bytes, and the visit ends with
// AGAIN and no handler.  Which bytes can be cut so that this happens, and what is left of the request when it does.
module Stalls {
  import opened Common
  import opened HttpParser
  import opened Request
  import opened HeaderMeaning
  import opened RequestMeaning
  import C = ChunkIndependence
  import E = EndToEnd
  import H = HeaderGrammar
  import L = RequestLineGrammar

  // ---------- the request line ----------

  /** A request for a file that is there, with a header line among ks that is refused. */
  ghost predicate Refused(w: World, b: string, k: L.Cuts, ks: seq<H.Cuts>) {
    && Servable(b, k) && FileAsked(w, b, k) != Missing
    && H.LinesAt(b, k.r + 2, ks) && !AllAccepted(w, b, ks)
  }

  function New(b: string): Request {
    FRESH.(ib := b)
  }

  /** When the file is there the pipeline goes on to the headers, with the bytes behind the line as they were. */
  lemma LineIsPassed(w: World, b: string, k: L.Cuts) returns (r: Request)
    requires Servable(b, k) && FileAsked(w, b, k) != Missing
    ensures Ready(b, INIT) && HandleRequestLine(w, New(b)) == (OK, r)
    ensures r.handler == OnHeaders && H.LineStart(r.ib, r.ar) && r.ar.nextParsePos == k.r + 2
    ensures E.TailKept(b, r.ib, k.r + 2)
    ensures Ready(r.ib, r.ar) && Drive(w, New(b)) == Drive(w, r)
    ensures L.LineAt(b, k) && r.ar.version == L.LineVersion(b, k) && r.ar.bodyReceived == 0 && r.slots == map[]
    ensures MarksOf(r) == FirstMarks(L.LineVersion(b, k))
  {
    hide Run, WellFormed, Drive, FileAsked, UrlOf, Inside, L.LineVersion, HandleRequestLine;
    FreshIsReady(b);
    LineIsOrdered(b, k);
    LineIsHandled(w, b, k);
    LineLeaves(b, k);
    DriveThroughLine(w, New(b));
    hide L.LineAt;
    r := HandleRequestLine(w, New(b)).1;
  }

  /** Drive from the header stage on. */
  lemma HeadersDecide(w: World, r: Request)
    requires Ready(r.ib, r.ar) && r.handler == OnHeaders
    ensures var (ret, r') := HandleHeaders(w, r);
            && (ret == AGAIN ==> Drive(w, r) == (AGAIN, r'))
            && (ret == OK ==> Drive(w, r).0 == OK || Drive(w, r).1.handler == OnBody)
  {
    hide HandleHeaders, HandleBody, WellFormed;
  }

  // ---------- all the header lines there are ----------

  /** No header line stands at s. */
  ghost predicate NoLineAt(b: string, s: nat) {
    forall k :: !H.HeaderAt(b, s, k)
  }

  lemma {:induction false} AllLines(b: string, s: nat) returns (ks: seq<H.Cuts>)
    requires s <= |b|
    ensures H.LinesAt(b, s, ks) && NoLineAt(b, H.LinesEnd(s, ks)) && s <= H.LinesEnd(s, ks) <= |b|
    decreases |b| - s
  {
    hide H.HeaderAt;
    if k :| H.HeaderAt(b, s, k) {
      LineIsPositive(b, s, k);
      H.InBuffer(b, s, k);
      var rest := AllLines(b, k.w + 2);
      ks := [k] + rest;
      assert ks[1..] == rest;
    } else {
      ks := [];
    }
  }

  /** Lines are a front of all the lines there are. */
  lemma {:induction false} LinesAreFront(b: string, s: nat, ks: seq<H.Cuts>, all: seq<H.Cuts>)
    requires H.LinesAt(b, s, ks) && H.LinesAt(b, s, all) && NoLineAt(b, H.LinesEnd(s, all))
    ensures ks <= all
    decreases |ks|
  {
    hide H.HeaderAt;
    if ks != [] {
      if all == [] {
        assert false;
      } else {
        H.HeaderIsUnique(b, s, ks[0], all[0]);
        LinesAreFront(b, ks[0].w + 2, ks[1..], all[1..]);
        assert ks == [ks[0]] + ks[1..] && all == [all[0]] + all[1..];
      }
    }
  }

  lemma NoLineOnTail(b: string, b': string, p: int, s: nat)
    requires E.TailKept(b, b', p) && p <= s && NoLineAt(b, s)
    ensures NoLineAt(b', s)
  {
    forall k | H.HeaderAt(b', s, k)
      ensures false
    {
      LineOnTail(b', b, s, s, k);
    }
  }

  lemma TailsAgree(b: string, b': string, p: int)
    requires E.TailKept(b, b', p)
    ensures E.TailKept(b', b, p)
  {
  }

  // ---------- stalls ----------

  /**
   * The request between two lines, at position p: the handler taken away, what the lines before have settled, their
   * slots.
   */
  ghost predicate StalledAt(x: Request, p: nat, minor: nat, m: Marks) {
    && H.LineStart(x.ib, x.ar) && x.ar.nextParsePos == p && x.ar.version.minor == minor
    && x.handler == NoHandler && x.errReq && x.ar.bodyReceived == 0 && MarksOf(x) == m
    && forall name | name in x.slots :: x.slots[name].str < p
  }

  /**
   * The lines up to the end of the bytes, one of them refused: the visit stalls behind them, with what they have
   * settled.
   */
  lemma RefusedStalls(w: World, b: string, k: L.Cuts, ks: seq<H.Cuts>)
    requires Refused(w, b, k, ks) && H.LinesEnd(k.r + 2, ks) == |b|
    ensures Ready(b, INIT) && Drive(w, New(b)).0 == AGAIN
    ensures var x := Drive(w, New(b)).1;
            |x.ib| == |b| && StalledAt(x, |b|, L.LineVersion(b, k).minor, MarksAfter(w, b, k, ks))
  {
    hide Drive, HandleHeaders, WellFormed, FileAsked, Servable, AllAccepted, H.LinesAt, E.TailKept, BlockMeaning,
         HeadKept, Run, L.LineAt, L.LineVersion, AfterLines, H.LinesEnd, FirstMarks, H.LineStart, MarksOf, StalledAt;
    var r := LineIsPassed(w, b, k);
    var p := k.r + 2;
    var minor, m := L.LineVersion(b, k).minor, FirstMarks(L.LineVersion(b, k));
    LinesOnTail(b, r.ib, p, p, ks);
    MeaningOnTail(w, minor, b, r.ib, p, p, ks, m);
    var r1 := LinesArePassed(w, r, ks);
    SameLength(b, r.ib, r1.ib);
    NothingLeftToRead(w, r1);
    HeadersDecide(w, r);
    BlockStalls(w, r, p, ks, r1);
  }

  lemma SameLength(b: string, b1: string, b2: string)
    ensures (exists p :: E.TailKept(b, b1, p)) && (exists p :: HeadKept(b1, b2, p)) ==> |b2| == |b1| == |b|
  {
  }

  lemma BlockStalls(w: World, r: Request, s: nat, ks: seq<H.Cuts>, r1: Request)
    requires r.ar.bodyReceived == 0 && r.slots == map[] && H.LinesAt(r.ib, s, ks)
    requires BlockMeaning(w, r, ks, r1) && !AllAccepted(w, r.ib, ks) && r1.handler == NoHandler
    requires H.LineStart(r1.ib, r1.ar) && r1.ar.nextParsePos == H.LinesEnd(s, ks)
    ensures StalledAt(r1, r1.ar.nextParsePos, r.ar.version.minor,
            AfterLines(w, r.ar.version.minor, r.ib, ks, MarksOf(r)))
  {
    hide H.LinesAt, SlotsFilled, AllAccepted, AfterLines, ValuesKept, H.LineStart, H.LinesEnd;
    SlotsLieInside(r.ib, s, ks, r1.slots);
  }

  lemma NothingLeftToRead(w: World, r: Request)
    requires H.LineStart(r.ib, r.ar) && r.ar.nextParsePos == |r.ib|
    ensures HandleHeaders(w, r) == (AGAIN, r)
  {
    hide OnHeader, ErrResponse;
  }

  /** A slot points into one of the lines. */
  lemma SlotsLieInside(b: string, s: nat, ks: seq<H.Cuts>, slots: map<string, Slice>)
    requires H.LinesAt(b, s, ks) && SlotsFilled(b, ks, map[], slots)
    ensures forall name | name in slots :: slots[name].str < H.LinesEnd(s, ks)
  {
    hide NameOf, Known;
    forall name | name in slots
      ensures slots[name].str < H.LinesEnd(s, ks)
    {
      LastLiesInside(b, s, ks, name);
    }
  }

  lemma {:induction false} LastLiesInside(b: string, s: nat, ks: seq<H.Cuts>, name: string)
    requires H.LinesAt(b, s, ks) && LastValue(b, ks, name).Some?
    ensures LastValue(b, ks, name).value.str < H.LinesEnd(s, ks)
    decreases |ks|
  {
    hide NameOf;
    LineIsPositive(b, s, ks[0]);
    EndIsLast(b, s, ks);
    if LastValue(b, ks[1..], name).Some? {
      LastLiesInside(b, ks[0].w + 2, ks[1..], name);
    }
  }

  /** Every stall has a refused line behind it, among all the lines there are. */
  lemma StalledMeansRefused(w: World, b: string) returns (k: L.Cuts, ks: seq<H.Cuts>)
    requires Ready(b, INIT) && E.Stalled(Drive(w, New(b)))
    ensures Refused(w, b, k, ks) && NoLineAt(b, H.LinesEnd(k.r + 2, ks))
  {
    k := LineBehindStall(w, b);
    hide Drive, HandleHeaders, WellFormed, FileAsked, Servable, AllAccepted, H.LinesAt, E.TailKept, BlockMeaning, Run,
         H.HeaderAt;
    var r := LineIsPassed(w, b, k);
    HeadersDecide(w, r);
    var p := k.r + 2;
    ks := AllLines(r.ib, p);
    var r1 := LinesArePassed(w, r, ks);
    NoLineOnTail(r.ib, r1.ib, r1.ar.nextParsePos, r1.ar.nextParsePos);
    LastAnswer(w, r1);
    TailsAgree(b, r.ib, p);
    NoLineOnTail(r.ib, b, p, H.LinesEnd(p, ks));
    LinesOnTail(r.ib, b, p, p, ks);
    MeaningOnTail(w, 0, r.ib, b, p, p, ks, FirstMarks(Version(0, 0)));
  }

  /** Behind the last header line the stage asks for more, or goes on to the body, or refuses the request. */
  lemma LastAnswer(w: World, r: Request)
    requires H.LineStart(r.ib, r.ar) && NoLineAt(r.ib, r.ar.nextParsePos)
    ensures Parse(HeaderLine, r.ib, r.ar).status != Ok
    ensures var a := Parse(HeaderLine, r.ib, r.ar);
            HandleHeaders(w, r) == match a.status
                                   case Again => (AGAIN, r.(ar := a.ar))
                                   case InvalidRequest => (OK, ErrResponse(w, r.(ar := a.ar), 400))
                                   case _ => (OK, r.(ar := a.ar, handler := OnBody))
  {
    H.AcceptsExactlyTheGrammar(r.ib, r.ar);
    hide Run, WellFormed, ErrResponse, H.HeaderAt;
  }

  lemma StallPassesLine(w: World, r: Request)
    requires Ready(r.ib, r.ar) && r.handler == OnRequestLine && E.Stalled(Drive(w, r))
    ensures HandleRequestLine(w, r).0 == OK && HandleRequestLine(w, r).1.handler == OnHeaders
  {
    hide HandleRequestLine, HandleHeaders, HandleBody, WellFormed;
  }

  lemma PassedLineIsServable(w: World, b: string) returns (k: L.Cuts)
    requires Ready(b, INIT) && HandleRequestLine(w, New(b)).0 == OK
             && HandleRequestLine(w, New(b)).1.handler == OnHeaders
    ensures Servable(b, k)
  {
    hide Run, WellFormed, L.LineAt, L.LineArchive, L.LineVersion, WithFile, PathEnd, RelativePath;
    k := L.OkMeansLine(b);
    E.PathMissingExactlyWhen(b, k);
    E.UrlOfLine(b, k);
  }

  /** A visit that gets past the request line has a request that can be served, and its file. */
  lemma LineBehindStall(w: World, b: string) returns (k: L.Cuts)
    requires Ready(b, INIT) && E.Stalled(Drive(w, New(b)))
    ensures Servable(b, k) && FileAsked(w, b, k) != Missing
  {
    hide Drive, WellFormed, Servable, FileAsked, UrlOf;
    StallPassesLine(w, New(b));
    k := PassedLineIsServable(w, b);
    LineIsHandled(w, b, k);
  }

  // ---------- the same bytes with more behind them ----------

  lemma {:induction false} ValueOnLonger(b: string, c: string, lo: nat, hi: nat)
    requires L.Digits(b, lo, hi)
    ensures L.Digits(b + c, lo, hi) && L.Value(b + c, lo, hi) == L.Value(b, lo, hi)
    decreases hi
  {
    if lo < hi - 1 {
      ValueOnLonger(b, c, lo, hi - 1);
    } else {
      assert L.Value(b + c, lo, lo) == L.Value(b, lo, lo);
    }
  }

  /** A number is one on the prefix exactly when it is one on the whole. */
  lemma NumberOnLonger(b: string, c: string, lo: nat, hi: nat)
    requires hi <= |b|
    ensures L.Number(b + c, lo, hi) <==> L.Number(b, lo, hi)
    ensures L.Number(b, lo, hi) ==> L.Value(b + c, lo, hi) == L.Value(b, lo, hi)
  {
    assert forall i | 0 <= i < |b| :: (b + c)[i] == b[i];
    assert L.Digits(b + c, lo, hi) <==> L.Digits(b, lo, hi);
    if L.Digits(b, lo, hi) {
      forall j | lo < j <= hi
        ensures L.Value(b + c, lo, j) == L.Value(b, lo, j)
      {
        ValueOnLonger(b, c, lo, j);
      }
    }
  }

  lemma BeforeVersionOnLonger(b: string, c: string, k: L.Cuts)
    requires k.h + 5 <= |b|
    ensures L.BeforeVersion(b + c, k.m, k.u, k.e, k.h) <==> L.BeforeVersion(b, k.m, k.u, k.e, k.h)
  {
    hide L.IsMethod;
    assert forall i | 0 <= i < |b| :: (b + c)[i] == b[i];
    if k.m < k.u < k.e < k.h {
      assert (b + c)[..k.m] == b[..k.m];
    }
  }

  lemma NumbersInLine(b: string, k: L.Cuts)
    ensures L.LineAt(b, k) ==> k.h + 5 < k.d < k.r
  {
    hide L.BeforeVersion, L.Value;
  }

  lemma LineOnLonger(b: string, c: string, k: L.Cuts)
    requires k.r + 2 <= |b|
    ensures L.LineAt(b + c, k) <==> L.LineAt(b, k)
    ensures L.LineAt(b, k) ==> L.LineVersion(b + c, k) == L.LineVersion(b, k)
  {
    hide L.Number, L.Value, L.BeforeVersion;
    NumbersInLine(b, k);
    NumbersInLine(b + c, k);
    if k.h + 5 < k.d < k.r {
      BeforeVersionOnLonger(b, c, k);
      NumberOnLonger(b, c, k.h + 5, k.d);
      NumberOnLonger(b, c, k.d + 1, k.r);
      assert (b + c)[k.d] == b[k.d] && (b + c)[k.r] == b[k.r] && (b + c)[k.r + 1] == b[k.r + 1];
    }
  }

  lemma ServableOnLonger(b: string, c: string, k: L.Cuts)
    requires k.r + 2 <= |b|
    ensures Servable(b + c, k) <==> Servable(b, k)
  {
    LineOnLonger(b, c, k);
    if L.LineAt(b, k) {
      LineIsOrdered(b, k);
      hide L.LineAt, L.LineVersion;
      assert (b + c)[k.e] == b[k.e];
      UrlIsOrdered(b, k);
      assert (b + c)[k.u..k.e] == b[k.u..k.e];
    }
  }

  lemma UrlIsOrdered(b: string, k: L.Cuts)
    requires L.LineAt(b, k)
    ensures k.u < k.e < |b|
  {
  }

  lemma UrlOnLonger(b: string, c: string, k: L.Cuts)
    requires L.LineAt(b, k) && L.LineAt(b + c, k)
    ensures UrlOf(b + c, k) == UrlOf(b, k)
  {
    UrlIsOrdered(b, k);
    hide L.LineAt, SplitUrl;
    assert (b + c)[..k.e + 1] == b[..k.e + 1];
  }

  lemma PathLiesInside(b: string, k: L.Cuts)
    requires L.LineAt(b, k)
    ensures Inside(|b|, UrlOf(b, k).absPath)
  {
    E.UrlOfLine(b, k);
    hide L.LineAt, SplitUrl;
  }

  lemma FileOnLonger(w: World, b: string, c: string, k: L.Cuts)
    requires Servable(b, k) && Servable(b + c, k)
    ensures FileAsked(w, b + c, k) == FileAsked(w, b, k)
  {
    UrlOnLonger(b, c, k);
    PathLiesInside(b, k);
    E.TextOnLonger(b, c, UrlOf(b, k).absPath);
    hide L.LineAt, L.LineVersion, UrlOf, FileName, Text, Inside;
  }

  lemma HeaderOnLonger(b: string, c: string, s: nat, k: H.Cuts)
    requires k.w + 2 <= |b|
    ensures H.HeaderAt(b + c, s, k) <==> H.HeaderAt(b, s, k)
  {
    assert forall i | 0 <= i < |b| :: (b + c)[i] == b[i];
  }

  lemma LineMeansTheSameOnLonger(b: string, c: string, s: nat, k: H.Cuts)
    requires H.HeaderAt(b, s, k)
    ensures NameOf(b + c, k) == NameOf(b, k) && Text(b + c, ValueOf(k)) == Text(b, ValueOf(k))
  {
    LineIsPositive(b, s, k);
    H.InBuffer(b, s, k);
    E.TextOnLonger(b, c, Slice(k.n, k.c - k.n));
    E.TextOnLonger(b, c, ValueOf(k));
    hide Text, LowerText;
  }

  /** What lines mean is settled by the bytes up to their end. */
  lemma {:induction false} LinesOnLonger(w: World, minor: nat, b: string, c: string, s: nat, ks: seq<H.Cuts>, m: Marks)
    requires H.LinesEnd(s, ks) <= |b| && (H.LinesAt(b, s, ks) || H.LinesAt(b + c, s, ks))
    ensures H.LinesAt(b, s, ks) && H.LinesAt(b + c, s, ks)
    ensures AllAccepted(w, b + c, ks) <==> AllAccepted(w, b, ks)
    ensures AfterLines(w, minor, b + c, ks, m) == AfterLines(w, minor, b, ks, m)
    decreases |ks|
  {
    hide H.HeaderAt, CodeFor, AfterHeader, AllAccepted, NameOf, Text;
    if ks == [] {
      NothingRefused(w, b);
      NothingRefused(w, b + c);
    } else {
      var k, rest := ks[0], ks[1..];
      EndIsLast(if H.LinesAt(b, s, ks) then b else b + c, s, ks);
      HeaderOnLonger(b, c, s, k);
      LineMeansTheSameOnLonger(b, c, s, k);
      LinesOnLonger(w, minor, b, c, k.w + 2, rest, AfterLine(w, minor, b, k, m));
      FirstAndRest(w, b, ks);
      FirstAndRest(w, b + c, ks);
    }
  }

  lemma EndIsLast(b: string, s: nat, ks: seq<H.Cuts>)
    requires ks != [] && H.LinesAt(b, s, ks)
    ensures ks[0].w + 2 <= H.LinesEnd(ks[0].w + 2, ks[1..]) == H.LinesEnd(s, ks)
  {
    H.LinesAreLong(b, ks[0].w + 2, ks[1..]);
  }

  /** Whether a line among ks is refused is settled by the bytes up to their end, and so is all that they mean. */
  lemma RefusedOnLonger(w: World, b: string, c: string, k: L.Cuts, ks: seq<H.Cuts>)
    requires H.LinesEnd(k.r + 2, ks) <= |b| && (Refused(w, b, k, ks) || Refused(w, b + c, k, ks))
    ensures Refused(w, b, k, ks) && Refused(w, b + c, k, ks)
    ensures L.LineVersion(b + c, k) == L.LineVersion(b, k) && MarksAfter(w, b + c, k, ks) == MarksAfter(w, b, k, ks)
  {
    hide H.LinesAt, AllAccepted, FileAsked, L.LineAt, L.LineVersion, H.LinesEnd, AfterLines, FirstMarks, UrlOf;
    H.LinesAreLong(if Refused(w, b, k, ks) then b else b + c, k.r + 2, ks);
    ServableOnLonger(b, c, k);
    LineOnLonger(b, c, k);
    FileOnLonger(w, b, c, k);
    var version := L.LineVersion(b, k);
    LinesOnLonger(w, version.minor, b, c, k.r + 2, ks, FirstMarks(version));
  }

  // ---------- the chunk at which a run stalls ----------

  /** A run that stalls has the bytes of some first chunks stall in one visit, and it ends as that visit does. */
  lemma {:induction false} StallPoint(w: World, r: Request, chunks: seq<string>) returns (front: string, back: string)
    requires E.Waiting(r) && chunks != [] && E.Stalled(E.Feed(w, r, chunks))
    ensures C.Concat(chunks) == front + back && Ready(r.ib + front, r.ar)
    ensures var x, y := E.Feed(w, r, chunks), Drive(w, E.Plus(r, front));
            E.Stalled(y) && E.Outcome(x.1) == E.Outcome(y.1)
    decreases |chunks|
  {
    hide Drive, E.Waiting, WellFormed, Rank;
    E.FirstChunk(r, chunks);
    E.WaitingIsReady(E.Plus(r, chunks[0]));
    var r0, rest := E.Plus(r, chunks[0]), chunks[1..];
    var (ret, r1) := Drive(w, r0);
    if E.Stalled((ret, r1)) {
      front, back := chunks[0], C.Concat(rest);
    } else {
      E.DriveResumes(w, r0, "");
      front, back := StallPoint(w, r1, rest);
      E.DriveResumes(w, r0, front);
      assert E.Plus(r0, front) == E.Plus(r, chunks[0] + front) by {
        assert r.ib + (chunks[0] + front) == (r.ib + chunks[0]) + front;
      }
      front := chunks[0] + front;
      assert C.Concat(chunks) == front + back;
    }
  }

  // ---------- runs ----------

  /** A new request whose bytes come in these chunks. */
  ghost function InChunks(w: World, chunks: seq<string>): (Ret, Request)
    requires chunks != []
  {
    E.FreshIsWaiting();
    E.Feed(w, FRESH, chunks)
  }

  /** All the bytes in one visit. */
  function AtOnce(w: World, b: string): (Ret, Request) {
    FreshIsReady(b);
    Drive(w, New(b))
  }

  ghost predicate CutOf(b: string, chunks: seq<string>) {
    chunks != [] && C.Concat(chunks) == b
  }

  lemma NewIsPlus(b: string)
    ensures E.Plus(FRESH, b) == New(b)
  {
    assert "" + b == b;
  }

  /** The cut behind the lines ks. */
  lemma CutBehind(w: World, b: string, k: L.Cuts, ks: seq<H.Cuts>) returns (chunks: seq<string>)
    requires Refused(w, b, k, ks)
    ensures var p := H.LinesEnd(k.r + 2, ks);
            && p <= |b| && CutOf(b, chunks) && b == b[..p] + b[p..]
            && Refused(w, b[..p], k, ks) && E.Stalled(AtOnce(w, b[..p])) && InChunks(w, chunks) == AtOnce(w, b[..p])
  {
    hide Drive, E.Waiting, WellFormed, Refused, H.LinesEnd, SlotsFilled, AfterLines;
    var p := H.LinesEnd(k.r + 2, ks);
    RefusedLinesInside(w, b, k, ks);
    chunks := [b[..p], b[p..]];
    assert b == b[..p] + b[p..];
    assert C.Concat(chunks) == b by {
      assert chunks[1..] == [b[p..]];
      assert C.Concat(chunks[1..]) == b[p..] + C.Concat([]);
    }
    RefusedOnLonger(w, b[..p], b[p..], k, ks);
    RefusedStalls(w, b[..p], k, ks);
    NewIsPlus(b[..p]);
    E.FreshIsWaiting();
  }

  lemma {:induction false} LinesEndInside(b: string, s: nat, ks: seq<H.Cuts>)
    requires H.LinesAt(b, s, ks) && s <= |b|
    ensures H.LinesEnd(s, ks) <= |b|
    decreases |ks|
  {
    if ks != [] {
      LinesEndInside(b, ks[0].w + 2, ks[1..]);
    }
  }

  /** A run can stall exactly when the bytes hold a refused header line behind a request line whose file is there. */
  lemma StallsExactlyWhen(w: World, b: string)
    ensures (exists chunks | CutOf(b, chunks) :: E.Stalled(InChunks(w, chunks)))
            <==> exists k, ks :: Refused(w, b, k, ks)
  {
    if chunks :| CutOf(b, chunks) && E.Stalled(InChunks(w, chunks)) {
      var k, ks := RefusedBehindStall(w, b, chunks);
    }
    if k, ks :| Refused(w, b, k, ks) {
      var chunks := CutBehind(w, b, k, ks);
    }
  }

  lemma RefusedBehindStall(w: World, b: string, chunks: seq<string>) returns (k: L.Cuts, ks: seq<H.Cuts>)
    requires CutOf(b, chunks) && E.Stalled(InChunks(w, chunks))
    ensures Refused(w, b, k, ks)
  {
    var front, back;
    k, ks, front, back := StallInFront(w, b, chunks);
  }

  lemma StallInFront(w: World, b: string, chunks: seq<string>)
      returns (k: L.Cuts, ks: seq<H.Cuts>, front: string, back: string)
    requires CutOf(b, chunks) && E.Stalled(InChunks(w, chunks))
    ensures b == front + back && Refused(w, front, k, ks) && Refused(w, b, k, ks)
    ensures H.LinesEnd(k.r + 2, ks) <= |front| && NoLineAt(front, H.LinesEnd(k.r + 2, ks))
    ensures E.Stalled(AtOnce(w, front)) && E.Outcome(InChunks(w, chunks).1) == E.Outcome(AtOnce(w, front).1)
  {
    hide Drive, E.Feed, E.Waiting, WellFormed, Refused, E.Outcome;
    E.FreshIsWaiting();
    front, back := StallPoint(w, FRESH, chunks);
    NewIsPlus(front);
    FreshIsReady(front);
    k, ks := StalledMeansRefused(w, front);
    RefusedLinesInside(w, front, k, ks);
    RefusedOnLonger(w, front, back, k, ks);
  }

  lemma RefusedLinesInside(w: World, b: string, k: L.Cuts, ks: seq<H.Cuts>)
    requires Refused(w, b, k, ks)
    ensures H.LinesEnd(k.r + 2, ks) <= |b|
  {
    hide AllAccepted, FileAsked, L.LineAt, L.LineVersion, H.LinesAt;
    LineIsOrdered(b, k);
    LinesEndInside(b, k.r + 2, ks);
  }

  /** More bytes at a point where a visit stalled between two lines: the whole visit goes on from there. */
  lemma StallGoesOn(w: World, b: string, c: string) returns (r: Request)
    requires E.Stalled(AtOnce(w, b))
    ensures var x := AtOnce(w, b).1;
            && Ready(x.ib + c, x.ar) && Ready(r.ib, r.ar) && r.handler == OnHeaders
            && E.Same(HandleHeaders(w, E.Plus(x, c)), HandleHeaders(w, r))
            && AtOnce(w, b + c) == Drive(w, r)
  {
    hide Drive, WellFormed, Run, HandleHeaders, HandleRequestLine, Servable, FileAsked, E.TailKept;
    FreshIsReady(b);
    FreshIsReady(b + c);
    var k := LineBehindStall(w, b);
    var r0 := LineIsPassed(w, b, k);
    HeadersDecide(w, r0);
    E.HeadersResume(w, r0, c);
    NewHasHistory(b);
    E.RequestLineOnLonger(w, New(b), c);
    r := E.Plus(r0, c);
    assert New(b + c) == E.Plus(New(b), c);
    DriveThroughLine(w, New(b + c));
  }

  lemma NewHasHistory(b: string)
    ensures E.History(New(b))
  {
  }
}
