// Requests and responses in turn on one connection: what its life puts on the wire.
module Exchanges {
  import opened Common
  import opened HttpParser
  import opened Request
  import opened HeaderMeaning
  import opened RequestMeaning
  import opened Response
  import opened ConnectionRun
  import C = ChunkIndependence
  import E = EndToEnd
  import H = HeaderGrammar
  import L = RequestLineGrammar

  // ---------- one request and its response as events ----------

  /** Each chunk is one visit of `request_handle`, all of them in one world. */
  function Reads(w: World, chunks: seq<string>): seq<Event> {
    if chunks == [] then [] else [Readable(chunks[0], WouldBlock, w)] + Reads(w, chunks[1..])
  }

  /** Each script is one visit of `response_handle`. */
  function Writes(scripts: seq<seq<IoResult>>): seq<Event> {
    if scripts == [] then [] else [Writable(scripts[0])] + Writes(scripts[1..])
  }

  /** One visit with a chunk, as an event. */
  lemma ReadIsDrive(w: World, r: Request, c: string)
    requires E.Waiting(r) && MaskOk(r) && r.ev.input
    ensures Ready(r.ib + c, r.ar) && r.handler != NoHandler
    ensures var (ret, r1) := Drive(w, E.Plus(r, c));
            && Dispatch(r, Readable(c, WouldBlock, w)) == (ret, r1, "")
            && ret != ERROR
            && (ret != FAULT ==> MaskOk(r1))
            && (ret != FAULT && r1.ev.input ==> ret == AGAIN && r1.handler != NoHandler)
            && (ret == OK ==> r1.ev.output)
  {
    E.WaitingOnLonger(r, c);
    DispatchKeepsMask(r, Readable(c, WouldBlock, w));
    hide Drive, WellFormed, E.Waiting;
  }

  /** The events that bring the chunks are those of Feed, as long as the interest mask admits them. */
  lemma {:induction false} ReadsAreFed(w: World, r: Request, chunks: seq<string>)
    requires E.Waiting(r) && MaskOk(r) && chunks != [] && Possible(r, Reads(w, chunks))
    ensures var (ret, r') := E.Feed(w, r, chunks);
            ret != FAULT ==> Live(r, Reads(w, chunks)) == Open(r', "") && MaskOk(r')
    decreases |chunks|
  {
    hide MaskOk, Drive, Dispatch, E.Waiting, WellFormed, Rank;
    var e, rest := Readable(chunks[0], WouldBlock, w), Reads(w, chunks[1..]);
    assert Reads(w, chunks)[0] == e && Reads(w, chunks)[1..] == rest;
    ReadIsDrive(w, r, chunks[0]);
    DispatchKeepsMask(r, e);
    var r0 := E.Plus(r, chunks[0]);
    var (ret, r1) := Drive(w, r0);
    if ret != FAULT {
      NothingBehind(Live(r1, rest));
      if |chunks| > 1 {
        assert rest[0] == Readable(chunks[1], WouldBlock, w);
        E.WaitingOnLonger(r, chunks[0]);
        E.DriveResumes(w, r0, "");
        ReadsAreFed(w, r1, chunks[1..]);
      }
    }
  }

  /**
   * The events that take the response are those of Transmit; a finished one leaves the fresh request or a closed
   * connection.
   */
  lemma {:induction false} WritesAreTransmitted(r: Request, scripts: seq<seq<IoResult>>)
    requires MaskOk(r) && r.ev.output && !r.responseDone && OutOk(r) && Possible(r, Writes(scripts))
    ensures var s, l := Transmit(r, scripts), Live(r, Writes(scripts));
            && !l.Crashed? && l.wire == s.wire
            && (l.Open? ==> if s.r.responseDone then l.r == FRESH else l.r.ev.output && !l.r.ev.input)
    decreases |scripts|
  {
    hide Respond, WellFormed, HandleRequestLine, Drive;
    if scripts != [] {
      var e, rest := Writable(scripts[0]), Writes(scripts[1..]);
      assert Writes(scripts)[0] == e && Writes(scripts)[1..] == rest;
      DispatchKeepsMask(r, e);
      RespondConserves(r, scripts[0]);
      RespondKeepsMask(r, scripts[0]);
      var s := Respond(r, scripts[0]);
      if s.r.responseDone {
        FinishedResponse(r, scripts[0]);
      } else if s.ret == AGAIN {
        WritesAreTransmitted(s.r, scripts[1..]);
      }
    }
  }

  // ---------- many requests ----------

  /**
   * A request, cut at k, ks and e, whose bytes come in these chunks, and what the socket does with its response.  Files
   * and date stand still while the request is read, and may be others for the next one.
   */
  datatype Exchange = Exchange(
    w: World, chunks: seq<string>, k: L.Cuts, ks: seq<H.Cuts>, e: nat, scripts: seq<seq<IoResult>>)

  function EventsOf(x: Exchange): seq<Event> {
    Reads(x.w, x.chunks) + Writes(x.scripts)
  }

  function AllEvents(xs: seq<Exchange>): seq<Event> {
    if xs == [] then [] else EventsOf(xs[0]) + AllEvents(xs[1..])
  }

  /** The request is a good one and its body is there. */
  ghost predicate Asks(x: Exchange) {
    var b := C.Concat(x.chunks);
    WellAsked(x.w, b, x.k, x.ks, x.e) && |b| - (x.e + 2) >= Length(x.w, b, x.ks, -1)
  }

  /** The bytes that answer it: a head and a file. */
  ghost function Answer(x: Exchange): string
    requires Asks(x)
  {
    var b := C.Concat(x.chunks);
    HeadOf(x.w, b, x.k, x.ks, FileAsked(x.w, b, x.k)) + BodyOf(FileAsked(x.w, b, x.k))
  }

  ghost function Answers(xs: seq<Exchange>): string
    requires forall x | x in xs :: Asks(x)
  {
    if xs == [] then "" else Answer(xs[0]) + Answers(xs[1..])
  }

  /** The socket lets this response finish. */
  ghost predicate Finishes(x: Exchange)
    requires Asks(x)
  {
    ExchangeIsExact(x.w, x.chunks, x.k, x.ks, x.e, x.scripts);
    Transmit(E.Feed(x.w, FRESH, x.chunks).1, x.scripts).r.responseDone
  }

  /** One exchange from a fresh request on. */
  lemma OneExchange(x: Exchange)
    requires Asks(x) && MaskOk(FRESH) && Possible(FRESH, EventsOf(x))
    ensures var l := Live(FRESH, EventsOf(x));
            && !l.Crashed?
            && l.wire <= Answer(x)
            && (Finishes(x) ==> l.wire == Answer(x))
            && (l.Open? ==> if Finishes(x) then l.r == FRESH else l.r.ev.output && !l.r.ev.input)
  {
    hide WellAsked, HeadOf, FileAsked, BodyOf, MaskOk, Dispatch, Transmit, Reads, Writes, E.Waiting, E.Feed,
         AnsweredWithFile, Length;
    ExchangeIsExact(x.w, x.chunks, x.k, x.ks, x.e, x.scripts);
    LifeInParts(FRESH, Reads(x.w, x.chunks), Writes(x.scripts));
    ReadsAreFed(x.w, FRESH, x.chunks);
    FedIsAnswered(x);
    var r := E.Feed(x.w, FRESH, x.chunks).1;
    WritesAreTransmitted(r, x.scripts);
    NothingBehind(Live(r, Writes(x.scripts)));
  }

  lemma FedIsAnswered(x: Exchange)
    requires Asks(x)
    ensures x.chunks != [] && E.Waiting(FRESH)
    ensures E.Feed(x.w, FRESH, x.chunks).0 == OK && E.Feed(x.w, FRESH, x.chunks).1.ev.output
  {
    hide WellAsked, HeadOf, FileAsked, E.Feed, E.Waiting;
    AnsweredHoweverCut(x.w, x.chunks, x.k, x.ks, x.e);
  }

  /** The next request begins with bytes to be read. */
  lemma NextIsRead(xs: seq<Exchange>)
    requires xs != [] && forall x | x in xs :: Asks(x)
    ensures AllEvents(xs) != [] && AllEvents(xs)[0].Readable?
  {
    FedIsAnswered(xs[0]);
    hide Asks;
    assert Reads(xs[0].w, xs[0].chunks)[0].Readable?;
  }

  /**
   * A connection on which good requests come one after another, each in any chunks: while the socket lets it, the wire
   * carries their answers in order and without gaps, and it carries them all when each response could finish.
   */
  lemma {:induction false} AnswersGoOutInOrder(xs: seq<Exchange>)
    requires forall x | x in xs :: Asks(x)
    requires MaskOk(FRESH) && Possible(FRESH, AllEvents(xs))
    ensures var l := Live(FRESH, AllEvents(xs));
            && !l.Crashed?
            && l.wire <= Answers(xs)
            && ((forall x | x in xs :: Finishes(x)) ==> l.wire == Answers(xs))
    decreases |xs|
  {
    hide Asks, Answer, Finishes, MaskOk, Dispatch, EventsOf;
    if xs != [] {
      var x, rest := xs[0], xs[1..];
      LifeInParts(FRESH, EventsOf(x), AllEvents(rest));
      OneExchange(x);
      if rest != [] {
        NextIsRead(rest);
        AnswersGoOutInOrder(rest);
      } else {
        assert EventsOf(x) + AllEvents(rest) == EventsOf(x);
        assert Answer(x) + Answers(rest) == Answer(x);
      }
    }
  }

  // ---------- bytes that come too early ----------

  function WithInput(r: Request, ib: string, ar: Archive): Request {
    r.(ib := ib, ar := ar)
  }

  /** The same result about a request with other input. */
  function Carried(s: Sent, ib: string, ar: Archive): Sent {
    s.(r := WithInput(s.r, ib, ar))
  }

  lemma {:induction false} SendObIgnoresInput(r: Request, ib: string, ar: Archive, script: seq<IoResult>)
    requires OutOk(r)
    ensures SendOb(WithInput(r, ib, ar), script) == Carried(SendOb(r, script), ib, ar)
    decreases |r.out.ob| - r.out.bufferSent
  {
    hide SendOb;
    var at := r.out.bufferSent;
    SendObStops(r, script);
    SendObStops(WithInput(r, ib, ar), script);
    if at < |r.out.ob| && script != [] && script[0].Accept? {
      var k := Taken(script[0].n, |r.out.ob| - at);
      SendObTakes(r, script, "");
      SendObTakes(WithInput(r, ib, ar), script, "");
      SendObIgnoresInput(r.(out := r.out.(bufferSent := at + k)), ib, ar, script[1..]);
    }
  }

  lemma {:induction false} SendFileIgnoresInput(r: Request, ib: string, ar: Archive, script: seq<IoResult>)
    requires OutOk(r) && r.out.resHandler == SendFile
    ensures HandleSendFile(WithInput(r, ib, ar), script) == Carried(HandleSendFile(r, script), ib, ar)
    decreases |r.file.resource.value| - r.out.fileSent
  {
    hide HandleSendFile;
    var content, at := r.file.resource.value, r.out.fileSent;
    SendFileStops(r, script);
    SendFileStops(WithInput(r, ib, ar), script);
    if r.file.size != 0 && at < |content| && script != [] && script[0].Accept? {
      var k := Taken(script[0].n, Limit(r.file.size, |content| - at));
      SendFileTakes(r, script, "");
      SendFileTakes(WithInput(r, ib, ar), script, "");
      SendFileIgnoresInput(r.(out := r.out.(fileSent := at + k)), ib, ar, script[1..]);
    }
  }

  lemma RespondIgnoresInput(r: Request, ib: string, ar: Archive, script: seq<IoResult>)
    requires OutOk(r)
    ensures Respond(WithInput(r, ib, ar), script) == Carried(Respond(r, script), ib, ar)
  {
    hide SendOb, HandleSendFile;
    if r.out.resHandler == SendFile {
      SendFileIgnoresInput(r, ib, ar, script);
    } else {
      SendObIgnoresInput(r, ib, ar, script);
      var s := HandleSendBuffer(r, script);
      if s.ret == OK && !s.r.responseDone {
        SendFileIgnoresInput(s.r, ib, ar, s.rest);
      }
    }
  }

  /** The life with other input in a request whose response is under way; after it, nothing is left of the input. */
  function CarriedOver(l: Life, ib: string, ar: Archive): Life {
    if l.Open? && l.r.ev.output then l.(r := WithInput(l.r, ib, ar)) else l
  }

  /** Unless the response is still under way, the connection is a fresh one or closed. */
  predicate Ended(l: Life) {
    l.Open? && !l.r.ev.output ==> l.r == FRESH
  }

  lemma MaskIgnoresInput(r: Request, ib: string, ar: Archive)
    requires MaskOk(r) && r.ev.output
    ensures MaskOk(WithInput(r, ib, ar))
  {
  }

  lemma WriteIgnoresInput(r: Request, ib: string, ar: Archive, script: seq<IoResult>)
    requires MaskOk(r) && r.ev.output
    ensures MaskOk(WithInput(r, ib, ar))
    ensures var (ret, r1, wire) := Dispatch(r, Writable(script));
            && ret != FAULT
            && var d := Dispatch(WithInput(r, ib, ar), Writable(script));
               if ret == ERROR then d.0 == ERROR && d.2 == wire
               else if r1.ev.output then d == (ret, WithInput(r1, ib, ar), wire)
               else r1 == FRESH && d == (ret, r1, wire)
  {
    RespondIgnoresInput(r, ib, ar, script);
    RespondKeepsMask(r, script);
    hide Respond;
  }

  lemma {:induction false} WritesIgnoreInput(r: Request, ib: string, ar: Archive, scripts: seq<seq<IoResult>>)
    requires MaskOk(r) && r.ev.output && Possible(r, Writes(scripts))
    ensures var x := WithInput(r, ib, ar);
            && MaskOk(x) && Possible(x, Writes(scripts))
            && Live(x, Writes(scripts)) == CarriedOver(Live(r, Writes(scripts)), ib, ar)
            && Ended(Live(r, Writes(scripts)))
    decreases |scripts|
  {
    hide Dispatch;
    MaskIgnoresInput(r, ib, ar);
    if scripts != [] {
      var e, rest := Writable(scripts[0]), Writes(scripts[1..]);
      assert Writes(scripts)[0] == e && Writes(scripts)[1..] == rest;
      WriteIgnoresInput(r, ib, ar, scripts[0]);
      DispatchKeepsMask(r, e);
      DispatchKeepsMask(WithInput(r, ib, ar), e);
      var (ret, r1, wire) := Dispatch(r, e);
      if ret != ERROR && r1.ev.output {
        WritesIgnoreInput(r1, ib, ar, scripts[1..]);
      }
    }
  }

  /** The visit with the bytes and those in which the response is sent. */
  function Answering(w: World, b: string, scripts: seq<seq<IoResult>>): seq<Event> {
    [Readable(b, WouldBlock, w)] + Writes(scripts)
  }

  lemma OneMore(r: Request, e: Event, rest: seq<Event>)
    requires MaskOk(r) && Armed(r, e) && Dispatch(r, e).0 != FAULT && Dispatch(r, e).0 != ERROR
    ensures var (ret, r1, wire) := Dispatch(r, e);
            && MaskOk(r1)
            && (Possible(r, [e] + rest) <==> Possible(r1, rest))
            && (Possible(r1, rest) ==> Live(r, [e] + rest) == Behind(wire, Live(r1, rest)))
  {
    hide Dispatch, MaskOk, Armed;
    DispatchKeepsMask(r, e);
    assert ([e] + rest)[1..] == rest;
  }

  /**
   * Bytes of a next request that come in the visit which completes the one before are lost: whatever the socket does
   * with the response, the same bytes are sent, and once it has finished the connection is where it is without them.
   */
  lemma EarlyBytesAreLost(w: World, r: Request, b: string, c: string, scripts: seq<seq<IoResult>>)
    requires E.Waiting(r) && MaskOk(r) && r.ev.input && Ready(r.ib + b, r.ar) && Drive(w, E.Plus(r, b)).0 == OK
    requires Possible(r, Answering(w, b, scripts))
    ensures Possible(r, Answering(w, b + c, scripts))
    ensures Ended(Live(r, Answering(w, b, scripts)))
    ensures exists ib, ar ::
              Live(r, Answering(w, b + c, scripts)) == CarriedOver(Live(r, Answering(w, b, scripts)), ib, ar)
  {
    hide Drive, MaskOk, Dispatch, E.Waiting, WellFormed;
    var rest := Writes(scripts);
    ReadIsDrive(w, r, b);
    ReadIsDrive(w, r, b + c);
    E.WaitingOnLonger(r, b);
    E.DriveOnLonger(w, E.Plus(r, b), c);
    assert E.Plus(E.Plus(r, b), c) == E.Plus(r, b + c) by {
      assert (r.ib + b) + c == r.ib + (b + c);
    }
    var x, y := Drive(w, E.Plus(r, b)).1, Drive(w, E.Plus(r, b + c)).1;
    assert y == WithInput(x, y.ib, y.ar);
    OneMore(r, Readable(b, WouldBlock, w), rest);
    OneMore(r, Readable(b + c, WouldBlock, w), rest);
    WritesIgnoreInput(x, y.ib, y.ar, scripts);
    NothingBehind(Live(x, rest));
    NothingBehind(Live(y, rest));
  }
}
