// One connection over its whole life: readable and writable events in any order that the interest mask admits.
module ConnectionRun {
  import opened Common
  import opened HttpParser
  import opened Request
  import opened Response

  /** An event of the connection and what the system does during it: files and date may change from one to the next. */
  datatype Event =
    | Readable(bytes: string, end: RecvEnd, w: World)
    | Writable(script: seq<IoResult>)

  /** epoll reports what is armed. */
  predicate Armed(r: Request, e: Event) {
    if e.Readable? then r.ev.input else r.ev.output
  }

  /**
   * Between events exactly one direction is armed.  While input is armed there is a handler to call, its parser is
   * where it stopped, and nothing has been sent.
   */
  predicate MaskOk(r: Request) {
    && r.ev.input != r.ev.output
    && OutOk(r)
    && (r.ev.input ==>
          && r.handler != NoHandler && Ready(r.ib, r.ar) && !r.responseDone
          && r.out.bufferSent == 0 && r.out.fileSent == 0 && r.out.resHandler == SendBuffer)
  }

  /** `request_handle` or `response_handle`: the status, the request after it, and the bytes sent. */
  function Dispatch(r: Request, e: Event): (Ret, Request, string)
    requires MaskOk(r) && Armed(r, e)
  {
    match e
    case Readable(bytes, end, w) =>
      var (ret, r') := RequestHandle(w, r, bytes, end);
      (ret, r', "")
    case Writable(script) =>
      var s := ResponseHandle(r, script);
      (s.ret, s.r, s.wire)
  }

  // ---------- the mask through the handlers ----------

  /** Inside the pipeline: nothing sent yet, one direction armed, and output armed once there is no handler. */
  predicate InPipeline(r: Request) {
    && r.ev.input != r.ev.output
    && (r.handler == NoHandler ==> r.ev.output)
    && (r.ev.input ==> !r.responseDone)
    && r.out.bufferSent == 0 && r.out.fileSent == 0 && r.out.resHandler == SendBuffer
  }

  lemma ErrKeepsMask(w: World, r: Request, code: int)
    requires InPipeline(r)
    ensures InPipeline(ErrResponse(w, r, code))
  {
  }

  lemma FileKeepsMask(w: World, r: Request, f: File)
    requires InPipeline(r)
    ensures InPipeline(WithFile(w, r, f))
  {
    ErrKeepsMask(w, r, 404);
    hide ErrResponse;
  }

  lemma AfterLineKeepsMask(w: World, r: Request)
    requires InPipeline(r) && r.handler != NoHandler
    ensures InPipeline(AfterRequestLine(w, r).1)
  {
    hide PathEnd, RelativePath, WithFile, ErrResponse;
    ErrKeepsMask(w, r, 505);
    var end := PathEnd(r.ib, r.ar.url.absPath);
    if end.Some? {
      var r2 := r.(keepAlive := r.ar.version == Version(1, 1), ib := r.ib[end.value := '\0']);
      FileKeepsMask(w, r2, w.open(RelativePath(r2.ib, r2.ar.url.absPath)));
    }
  }

  lemma RequestLineKeepsMask(w: World, r: Request)
    requires InPipeline(r) && r.handler != NoHandler && Ready(r.ib, r.ar)
    ensures InPipeline(HandleRequestLine(w, r).1)
  {
    hide Parse, AfterRequestLine, ErrResponse;
    var r1 := r.(ar := Parse(RequestLine, r.ib, r.ar).ar);
    ErrKeepsMask(w, r1, 400);
    AfterLineKeepsMask(w, r1);
  }

  lemma CallbacksKeepMask(w: World, r: Request, text: string)
    requires InPipeline(r)
    ensures InPipeline(WithConnection(w, r, text))
    ensures InPipeline(WithContentLength(w, r, text))
    ensures InPipeline(WithTransferEncoding(w, r, text))
  {
    hide CaseEqual, Coding;
  }

  lemma OnHeaderKeepsMask(w: World, r: Request)
    requires InPipeline(r)
    ensures InPipeline(OnHeader(w, r))
  {
    hide Lookup, Lowered, Text, WithConnection, WithContentLength, WithTransferEncoding;
    forall x: Request, text | InPipeline(x)
      ensures InPipeline(WithConnection(w, x, text))
      ensures InPipeline(WithContentLength(w, x, text))
      ensures InPipeline(WithTransferEncoding(w, x, text))
    {
      CallbacksKeepMask(w, x, text);
    }
  }

  lemma {:induction false} HeadersKeepMask(w: World, r: Request)
    requires InPipeline(r) && Ready(r.ib, r.ar)
    ensures InPipeline(HandleHeaders(w, r).1)
    decreases |r.ib| - r.ar.nextParsePos
  {
    hide OnHeader;
    var r1 := r.(ar := Parse(HeaderLine, r.ib, r.ar).ar);
    if Parse(HeaderLine, r.ib, r.ar).status == Ok {
      OnHeaderKeepsMask(w, r1);
      HeadersKeepMask(w, OnHeader(w, r1));
    }
  }

  lemma {:induction false} DriveKeepsMask(w: World, r: Request)
    requires InPipeline(r) && r.handler != NoHandler && Ready(r.ib, r.ar)
    ensures InPipeline(Drive(w, r).1)
    decreases Rank(r.handler)
  {
    hide HandleRequestLine, HandleHeaders, HandleBody, WellFormed;
    match r.handler {
      case OnRequestLine => RequestLineKeepsMask(w, r);
      case OnHeaders => HeadersKeepMask(w, r);
      case OnBody => BodyKeepsMask(w, r);
    }
    var (ret, r1) := Call(w, r);
    if ret == OK && r1.handler != NoHandler {
      DriveKeepsMask(w, r1);
    }
  }

  lemma BodyKeepsMask(w: World, r: Request)
    requires InPipeline(r) && Ready(r.ib, r.ar)
    ensures InPipeline(HandleBody(w, r).1)
  {
    hide ParseBody, MimeText;
  }

  // ---------- events ----------

  /** The mask after an event: kept, unless the handler failed and the connection is about to be expired. */
  lemma DispatchKeepsMask(r: Request, e: Event)
    requires MaskOk(r) && Armed(r, e)
    ensures var (ret, r', _) := Dispatch(r, e);
            ret == FAULT || ret == ERROR || MaskOk(r')
  {
    match e
    case Readable(bytes, end, w) =>
      var r1 := r.(ib := r.ib + bytes);
      DriveKeepsMask(w, r1);
      hide Drive;
    case Writable(script) =>
      RespondKeepsMask(r, script);
      hide Respond;
  }

  lemma {:induction false} SendFileKeepsMask(r: Request, script: seq<IoResult>)
    requires OutOk(r) && r.out.resHandler == SendFile
    ensures HandleSendFile(r, script).r.ev == r.ev
    decreases |r.file.resource.value| - r.out.fileSent
  {
    if r.out.fileSent < |r.file.resource.value| && script != [] && script[0].Accept? {
      var k := Taken(script[0].n, Limit(r.file.size, |r.file.resource.value| - r.out.fileSent));
      SendFileKeepsMask(r.(out := r.out.(fileSent := r.out.fileSent + k)), script[1..]);
    }
  }

  lemma RespondKeepsMask(r: Request, script: seq<IoResult>)
    requires OutOk(r)
    ensures var s := Respond(r, script);
            if r.out.resHandler == SendBuffer && r.file.resource == None && s.ret == OK then
              s.r.responseDone && s.r.ev == r.ev.(output := false)
            else s.r.ev == r.ev
  {
    if r.out.resHandler == SendFile {
      SendFileKeepsMask(r, script);
    } else {
      var s := HandleSendBuffer(r, script);
      if s.ret == OK && !s.r.responseDone {
        SendFileKeepsMask(s.r, s.rest);
      }
    }
  }

  /**
   * Reading fails exactly when the peer has closed the connection or the socket is broken, whatever has been read
   * before.
   */
  lemma ReadFailsExactlyWhen(r: Request, bytes: string, end: RecvEnd, w: World)
    requires MaskOk(r) && Armed(r, Readable(bytes, end, w))
    ensures Dispatch(r, Readable(bytes, end, w)).0 == ERROR <==> end == Eof || end == Failed
    ensures end == Eof || end == Failed ==> Dispatch(r, Readable(bytes, end, w)) == (ERROR, r.(ib := r.ib + bytes), "")
  {
    hide Drive;
  }

  /**
   * Writing fails exactly when the socket breaks, or when the response is done and the connection is not to be kept.
   */
  lemma WriteFailsExactlyWhen(r: Request, script: seq<IoResult>)
    requires MaskOk(r) && Armed(r, Writable(script))
    ensures var s := Respond(r, script);
            Dispatch(r, Writable(script)).0 == ERROR <==> s.ret == ERROR || (s.r.responseDone && !s.r.keepAlive)
  {
    hide Respond;
  }

  /** A connection from accept on.  It ends when a handler fails, for then it is closed. */
  datatype Life = Open(r: Request, wire: string) | Closed(wire: string) | Crashed(wire: string)

  /** The life with these bytes sent before it. */
  function Behind(wire: string, l: Life): Life {
    l.(wire := wire + l.wire)
  }

  /** The events that can happen to it: each must be armed when it comes. */
  predicate Possible(r: Request, es: seq<Event>)
    requires MaskOk(r)
    decreases |es|
  {
    es == [] ||
    (Armed(r, es[0]) &&
     var (ret, r', _) := Dispatch(r, es[0]);
     DispatchKeepsMask(r, es[0]);
     if ret == ERROR || ret == FAULT then es[1..] == [] else Possible(r', es[1..]))
  }

  function Live(r: Request, es: seq<Event>): Life
    requires MaskOk(r) && Possible(r, es)
    decreases |es|
  {
    if es == [] then Open(r, "")
    else
      var (ret, r', wire) := Dispatch(r, es[0]);
      DispatchKeepsMask(r, es[0]);
      if ret == FAULT then Crashed(wire)
      else if ret == ERROR then Closed(wire)
      else Behind(wire, Live(r', es[1..]))
  }

  lemma FreshMask()
    ensures MaskOk(FRESH)
  {
  }

  /**
   * In every run of every connection that is still open, exactly one direction is armed and armed input has a handler.
   */
  lemma {:induction false} MaskInEveryRun(r: Request, es: seq<Event>)
    requires MaskOk(r) && Possible(r, es)
    ensures Live(r, es).Open? ==> MaskOk(Live(r, es).r)
    decreases |es|
  {
    if es != [] {
      var (ret, r', _) := Dispatch(r, es[0]);
      DispatchKeepsMask(r, es[0]);
      if ret != ERROR && ret != FAULT {
        MaskInEveryRun(r', es[1..]);
      }
    }
  }

  /** A life in two parts; nothing comes after a connection has been closed. */
  lemma {:induction false} LifeInParts(r: Request, es: seq<Event>, es': seq<Event>)
    requires MaskOk(r) && Possible(r, es + es')
    ensures Possible(r, es)
    ensures var l := Live(r, es);
            if l.Open? then
              && MaskOk(l.r) && Possible(l.r, es')
              && Live(r, es + es') == Behind(l.wire, Live(l.r, es'))
            else es' == []
    decreases |es|
  {
    hide MaskOk, Armed, Dispatch;
    if es == [] {
      assert es + es' == es';
      assert Behind("", Live(r, es')) == Live(r, es') by { NothingBehind(Live(r, es')); }
    } else {
      assert (es + es')[0] == es[0] && (es + es')[1..] == es[1..] + es';
      var (ret, r', wire) := Dispatch(r, es[0]);
      DispatchKeepsMask(r, es[0]);
      if ret != ERROR && ret != FAULT {
        LifeInParts(r', es[1..], es');
        var l := Live(r', es[1..]);
        if l.Open? {
          Reassociate(wire, l.wire, Live(l.r, es').wire);
        }
      }
    }
  }

  /** Two possible parts make a possible life. */
  lemma {:induction false} PartsMakeALife(r: Request, es: seq<Event>, es': seq<Event>)
    requires MaskOk(r) && Possible(r, es) && Live(r, es).Open?
    requires MaskOk(Live(r, es).r) && Possible(Live(r, es).r, es')
    ensures Possible(r, es + es')
    decreases |es|
  {
    hide MaskOk, Armed, Dispatch;
    if es == [] {
      assert es + es' == es';
    } else {
      assert (es + es')[0] == es[0] && (es + es')[1..] == es[1..] + es';
      var (ret, r', wire) := Dispatch(r, es[0]);
      DispatchKeepsMask(r, es[0]);
      PartsMakeALife(r', es[1..], es');
    }
  }

  /** One event more in a life that is still open. */
  lemma OneEventMore(r: Request, es: seq<Event>, e: Event)
    requires MaskOk(r) && Possible(r, es) && Live(r, es).Open?
    requires MaskOk(Live(r, es).r) && Armed(Live(r, es).r, e)
    ensures Possible(r, es + [e])
    ensures var l := Live(r, es);
            var (ret, r', wire) := Dispatch(l.r, e);
            Live(r, es + [e]) == if ret == FAULT then Crashed(l.wire + wire)
                                 else if ret == ERROR then Closed(l.wire + wire)
                                 else Open(r', l.wire + wire)
  {
    hide MaskOk, Armed, Dispatch;
    var l := Live(r, es);
    DispatchKeepsMask(l.r, e);
    assert [e][1..] == [];
    PartsMakeALife(r, es, [e]);
    LifeInParts(r, es, [e]);
    var (ret, r', wire) := Dispatch(l.r, e);
    assert wire + "" == wire;
  }

  lemma NothingBehind(l: Life)
    ensures Behind("", l) == l
  {
    assert "" + l.wire == l.wire;
  }

  /** A response that finishes leaves the fresh request on a keep-alive connection and gives up any other. */
  lemma FinishedResponse(r: Request, script: seq<IoResult>)
    requires MaskOk(r) && r.ev.output && Respond(r, script).r.responseDone
    ensures var d := Dispatch(r, Writable(script));
            && d.2 == Respond(r, script).wire
            && if Respond(r, script).r.keepAlive then d.0 == Respond(r, script).ret && d.1 == FRESH else d.0 == ERROR
  {
    hide Respond;
  }

  /**
   * In a run: once a response has finished on keep-alive, the rest of the life is that of a new connection, with the
   * same answers, bytes and end, whatever has come before.
   */
  lemma KeepAliveStartsAfresh(r: Request, es: seq<Event>, script: seq<IoResult>, later: seq<Event>)
    requires MaskOk(r) && Possible(r, es + [Writable(script)] + later)
    requires Possible(r, es) && Live(r, es).Open? && OutOk(Live(r, es).r)
    requires var s := Respond(Live(r, es).r, script); s.r.responseDone && s.r.keepAlive && s.ret != ERROR
    ensures MaskOk(FRESH) && Possible(FRESH, later)
    ensures var l, s := Live(r, es), Respond(Live(r, es).r, script);
            Live(r, es + [Writable(script)] + later) == Behind(l.wire + s.wire, Live(FRESH, later))
  {
    hide Respond, Dispatch, MaskOk;
    var e, l := Writable(script), Live(r, es);
    assert es + [e] + later == es + ([e] + later);
    LifeInParts(r, es, [e] + later);
    LifeInParts(l.r, [e], later);
    assert [e][1..] == [];
    FinishedResponse(l.r, script);
    var s := Respond(l.r, script);
    NothingBehind(Open(FRESH, s.wire));
    assert s.wire + "" == s.wire;
    assert Live(l.r, [e]) == Open(FRESH, s.wire);
    Reassociate(l.wire, s.wire, Live(FRESH, later).wire);
  }
}
