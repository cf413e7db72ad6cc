// Sending a response: the two response handlers and the loop over them, against a socket that takes what it likes.
//
// One visit to the socket is a script: what each send or sendfile in turn is answered.  A script that has run out
// answers EAGAIN, so quantifying over scripts is quantifying over every pattern of short writes, EAGAIN and errors.
module Response {
  import opened Common
  import opened HttpParser
  import opened Request

  datatype IoResult = Accept(n: nat) | NotNow | Broken

  /** The result of a handler: its status, the request, what is left of the script, and the bytes it put on the wire. */
  datatype Sent = Sent(ret: Ret, r: Request, rest: seq<IoResult>, wire: string)

  /** Positions lie inside what is being sent. */
  predicate OutOk(r: Request) {
    && r.out.bufferSent <= |r.out.ob|
    && (r.file.resource.Some? ==> r.out.fileSent <= |r.file.resource.value|)
    && (r.out.resHandler == SendFile ==> r.file.resource.Some?)
  }

  /** A call that is offered `most` bytes and may take n takes at least one of them. */
  function Taken(n: nat, most: nat): (k: nat)
    requires most > 0
    ensures 0 < k <= most && (0 < n <= most ==> k == n)
  {
    if n == 0 then 1 else if n < most then n else most
  }

  /** `response_send`: send returns 0 exactly when it is offered nothing. */
  function SendOb(r: Request, script: seq<IoResult>): (s: Sent)
    requires OutOk(r)
    ensures OutOk(s.r) && s.ret != FAULT
    ensures s.r == r.(out := s.r.out) && s.r.out.resHandler == r.out.resHandler && s.r.out.fileSent == r.out.fileSent
    ensures if s.ret == OK then s.r.out.ob == "" else s.r.out.bufferSent < |s.r.out.ob|
    decreases |r.out.ob| - r.out.bufferSent
  {
    var at := r.out.bufferSent;
    if at == |r.out.ob| then Sent(OK, r.(out := r.out.(ob := "", bufferSent := 0)), script, "")
    else if script == [] then Sent(AGAIN, r, [], "")
    else
      match script[0]
      case NotNow => Sent(AGAIN, r, script[1..], "")
      case Broken => Sent(ERROR, r, script[1..], "")
      case Accept(n) =>
        var k := Taken(n, |r.out.ob| - at);
        var s := SendOb(r.(out := r.out.(bufferSent := at + k)), script[1..]);
        s.(wire := r.out.ob[at..at + k] + s.wire)
  }

  /** `response_handle_send_buffer` */
  function HandleSendBuffer(r: Request, script: seq<IoResult>): (s: Sent)
    requires OutOk(r)
    ensures OutOk(s.r) && s.ret != FAULT
    ensures s.r == r.(out := s.r.out, ev := s.r.ev, responseDone := s.r.responseDone)
    ensures s.ret == OK && !s.r.responseDone ==> s.r.out.resHandler == SendFile
  {
    var s := SendOb(r, script);
    if s.ret != OK then s
    else if r.file.resource.Some? then s.(r := s.r.(out := s.r.out.(resHandler := SendFile)))
    else s.(r := s.r.(responseDone := true, ev := s.r.ev.(output := false)))
  }

  /**
   * The most that one sendfile call may move: its count is the size as an unsigned number, so a negative one is no
   * limit.
   */
  function Limit(size: int, left: nat): (k: nat)
    ensures k <= left && (0 < size ==> k <= size) && (0 < left ==> 0 < k)
    ensures size <= 0 || left <= size ==> k == left
  {
    if 0 < size < left then size else left
  }

  /** `response_handle_send_file`: sendfile returns 0 when the count is 0 or the file is at its end. */
  function HandleSendFile(r: Request, script: seq<IoResult>): (s: Sent)
    requires OutOk(r) && r.out.resHandler == SendFile
    ensures OutOk(s.r) && s.ret != FAULT
    ensures s.r == r.(out := s.r.out, responseDone := s.r.responseDone)
    ensures s.ret == OK ==> s.r.responseDone
    decreases |r.file.resource.value| - r.out.fileSent
  {
    var content, at := r.file.resource.value, r.out.fileSent;
    if r.file.size == 0 || at == |content| then Sent(OK, r.(responseDone := true), script, "")
    else if script == [] then Sent(AGAIN, r, [], "")
    else
      match script[0]
      case NotNow => Sent(AGAIN, r, script[1..], "")
      case Broken => Sent(ERROR, r, script[1..], "")
      case Accept(n) =>
        var k := Taken(n, Limit(r.file.size, |content| - at));
        var s := HandleSendFile(r.(out := r.out.(fileSent := at + k)), script[1..]);
        s.(wire := content[at..at + k] + s.wire)
  }

  /** The loop of `response_handle`. */
  function Respond(r: Request, script: seq<IoResult>): (s: Sent)
    requires OutOk(r)
    ensures OutOk(s.r) && s.ret != FAULT
    ensures s.r == r.(out := s.r.out, ev := s.r.ev, responseDone := s.r.responseDone)
    decreases if r.out.resHandler == SendBuffer then 1 else 0
  {
    if r.out.resHandler == SendFile then HandleSendFile(r, script)
    else
      var s := HandleSendBuffer(r, script);
      if s.ret == OK && !s.r.responseDone then
        var t := Respond(s.r, s.rest);
        t.(wire := s.wire + t.wire)
      else s
  }

  /** `response_handle`: a finished response resets the request on a keep-alive connection and expires it otherwise. */
  function ResponseHandle(r: Request, script: seq<IoResult>): Sent
    requires OutOk(r)
  {
    var s := Respond(r, script);
    if !s.r.responseDone then s
    else if s.r.keepAlive then s.(r := Reset(s.r).(ev := Interest(true, false)))
    else s.(ret := ERROR)
  }

  // ---------- where a visit stops ----------

  /**
   * The first i calls are accepted, and the next one decides: AGAIN when the socket is not ready or its answers have
   * run out, ERROR when it is broken; OK does not ask it.
   */
  ghost predicate StopsAt(script: seq<IoResult>, i: nat, s: Sent) {
    && i <= |script| && (forall j | 0 <= j < i :: script[j].Accept?)
    && match s.ret
       case OK => s.rest == script[i..]
       case AGAIN => if i == |script| then s.rest == [] else script[i].NotNow? && s.rest == script[i + 1..]
       case ERROR => i < |script| && script[i].Broken? && s.rest == script[i + 1..]
       case FAULT => false
  }

  lemma StopsOneLater(script: seq<IoResult>, i: nat, s: Sent, t: Sent)
    requires script != [] && script[0].Accept? && StopsAt(script[1..], i, s) && t.ret == s.ret && t.rest == s.rest
    ensures StopsAt(script, i + 1, t)
  {
    assert forall j | 0 < j <= |script| :: script[j..] == script[1..][j - 1..];
    assert forall j | 0 < j < |script| :: script[j] == script[1..][j - 1];
  }

  lemma {:induction false} SendObStopsAt(r: Request, script: seq<IoResult>) returns (i: nat)
    requires OutOk(r)
    ensures StopsAt(script, i, SendOb(r, script)) && i <= |SendOb(r, script).wire|
    decreases |r.out.ob| - r.out.bufferSent
  {
    hide SendOb, StopsAt;
    i := 0;
    SendObStops(r, script);
    var at := r.out.bufferSent;
    if at < |r.out.ob| && script != [] && script[0].Accept? {
      var k := Taken(script[0].n, |r.out.ob| - at);
      var later := r.(out := r.out.(bufferSent := at + k));
      i := SendObStopsAt(later, script[1..]);
      SendObUnfolds(r, script);
      MoreSent(r.out.ob[at..at + k], SendOb(later, script[1..]));
      StopsOneLater(script, i, SendOb(later, script[1..]), SendOb(r, script));
      i := i + 1;
    } else {
      StopsAtOnce(script, SendOb(r, script));
    }
  }

  lemma {:induction false} SendFileStopsAt(r: Request, script: seq<IoResult>) returns (i: nat)
    requires OutOk(r) && r.out.resHandler == SendFile
    ensures StopsAt(script, i, HandleSendFile(r, script)) && i <= |HandleSendFile(r, script).wire|
    decreases |r.file.resource.value| - r.out.fileSent
  {
    hide HandleSendFile, StopsAt;
    i := 0;
    SendFileStops(r, script);
    var content, at := r.file.resource.value, r.out.fileSent;
    if r.file.size != 0 && at < |content| && script != [] && script[0].Accept? {
      var k := Taken(script[0].n, Limit(r.file.size, |content| - at));
      var later := r.(out := r.out.(fileSent := at + k));
      i := SendFileStopsAt(later, script[1..]);
      SendFileUnfolds(r, script);
      MoreSent(content[at..at + k], HandleSendFile(later, script[1..]));
      StopsOneLater(script, i, HandleSendFile(later, script[1..]), HandleSendFile(r, script));
      i := i + 1;
    } else {
      StopsAtOnce(script, HandleSendFile(r, script));
    }
  }

  lemma MoreSent(piece: string, s: Sent)
    ensures |After(piece, s).wire| == |piece| + |s.wire|
  {
  }

  lemma StopsAtOnce(script: seq<IoResult>, s: Sent)
    requires match s.ret
             case OK => s.rest == script
             case AGAIN => if script == [] then s.rest == [] else script[0].NotNow? && s.rest == script[1..]
             case ERROR => script != [] && script[0].Broken? && s.rest == script[1..]
             case FAULT => false
    ensures StopsAt(script, 0, s)
  {
  }

  lemma StopsBehind(script: seq<IoResult>, i: nat, s: Sent, i': nat, t: Sent)
    requires StopsAt(script, i, s) && s.ret == OK && StopsAt(s.rest, i', t)
    ensures StopsAt(script, i + i', t)
  {
    assert forall j | i <= j <= |script| :: script[j..] == script[i..][j - i..];
    assert forall j | i <= j < |script| :: script[j] == script[i..][j - i];
  }

  /**
   * The status of a visit is what the socket says to the first call that it does not accept, and each call accepted
   * sends.
   */
  lemma VisitStopsAt(r: Request, script: seq<IoResult>) returns (i: nat)
    requires OutOk(r)
    ensures StopsAt(script, i, Respond(r, script)) && i <= |Respond(r, script).wire|
  {
    hide SendOb, HandleSendFile, StopsAt;
    if r.out.resHandler == SendFile {
      i := SendFileStopsAt(r, script);
    } else {
      i := SendObStopsAt(r, script);
      var s := HandleSendBuffer(r, script);
      SameStop(script, i, SendOb(r, script), s);
      if s.ret == OK && !s.r.responseDone {
        var i' := SendFileStopsAt(s.r, s.rest);
        var t := HandleSendFile(s.r, s.rest);
        StopsBehind(script, i, s, i', t);
        SameStop(script, i + i', t, Respond(r, script));
        i := i + i';
      }
    }
  }

  lemma SameStop(script: seq<IoResult>, i: nat, s: Sent, t: Sent)
    requires StopsAt(script, i, s) && t.ret == s.ret && t.rest == s.rest
    ensures StopsAt(script, i, t)
  {
  }

  // ---------- conservation ----------

  /** The part of the output buffer that is still to be sent. */
  function BufferLeft(r: Request): string
    requires OutOk(r)
  {
    r.out.ob[r.out.bufferSent..]
  }

  /** The part of the file that is still to be sent. */
  function BodyLeft(r: Request): string
    requires OutOk(r)
  {
    if r.file.resource.None? || r.file.size == 0 then "" else r.file.resource.value[r.out.fileSent..]
  }

  /** All that is still to be sent. */
  function Pending(r: Request): string
    requires OutOk(r)
  {
    if r.out.resHandler == SendFile then BodyLeft(r) else BufferLeft(r) + BodyLeft(r)
  }

  lemma Reassociate(x: string, y: string, z: string)
    ensures (x + y) + z == x + (y + z)
  {
  }

  /** A result with `wire` sent before it. */
  function After(wire: string, s: Sent): Sent {
    s.(wire := wire + s.wire)
  }

  lemma AfterAfter(wire: string, piece: string, s: Sent)
    ensures After(wire, After(piece, s)) == After(wire + piece, s)
  {
    Reassociate(wire, piece, s.wire);
  }

  /** One send that takes something: the bytes taken move to the wire. */
  lemma SendObTakes(r: Request, script: seq<IoResult>, wire: string)
    requires OutOk(r) && r.out.bufferSent < |r.out.ob| && script != [] && script[0].Accept?
    ensures var at := r.out.bufferSent;
            var k := Taken(script[0].n, |r.out.ob| - at);
            var s := SendOb(r.(out := r.out.(bufferSent := at + k)), script[1..]);
            && SendOb(r, script) == After(r.out.ob[at..at + k], s)
            && After(wire, SendOb(r, script)) == After(wire + r.out.ob[at..at + k], s)
  {
    SendObUnfolds(r, script);
    hide Taken, SendOb, After;
    var at := r.out.bufferSent;
    var k := Taken(script[0].n, |r.out.ob| - at);
    AfterAfter(wire, r.out.ob[at..at + k], SendOb(r.(out := r.out.(bufferSent := at + k)), script[1..]));
  }

  lemma SendObUnfolds(r: Request, script: seq<IoResult>)
    requires OutOk(r) && r.out.bufferSent < |r.out.ob| && script != [] && script[0].Accept?
    ensures var at := r.out.bufferSent;
            var k := Taken(script[0].n, |r.out.ob| - at);
            SendOb(r, script) == After(r.out.ob[at..at + k],
              SendOb(r.(out := r.out.(bufferSent := at + k)), script[1..]))
  {
    hide Taken;
  }

  /** One sendfile that takes something. */
  lemma SendFileTakes(r: Request, script: seq<IoResult>, wire: string)
    requires OutOk(r) && r.out.resHandler == SendFile && script != [] && script[0].Accept?
    requires r.file.size != 0 && r.out.fileSent < |r.file.resource.value|
    ensures var content, at := r.file.resource.value, r.out.fileSent;
            var k := Taken(script[0].n, Limit(r.file.size, |content| - at));
            var s := HandleSendFile(r.(out := r.out.(fileSent := at + k)), script[1..]);
            && HandleSendFile(r, script) == After(content[at..at + k], s)
            && After(wire, HandleSendFile(r, script)) == After(wire + content[at..at + k], s)
  {
    SendFileUnfolds(r, script);
    hide Taken, HandleSendFile, After;
    var content, at := r.file.resource.value, r.out.fileSent;
    var k := Taken(script[0].n, Limit(r.file.size, |content| - at));
    AfterAfter(wire, content[at..at + k], HandleSendFile(r.(out := r.out.(fileSent := at + k)), script[1..]));
  }

  lemma SendFileUnfolds(r: Request, script: seq<IoResult>)
    requires OutOk(r) && r.out.resHandler == SendFile && script != [] && script[0].Accept?
    requires r.file.size != 0 && r.out.fileSent < |r.file.resource.value|
    ensures var content, at := r.file.resource.value, r.out.fileSent;
            var k := Taken(script[0].n, Limit(r.file.size, |content| - at));
            HandleSendFile(r, script)
              == After(content[at..at + k], HandleSendFile(r.(out := r.out.(fileSent := at + k)), script[1..]))
  {
    hide Taken;
  }

  lemma SendObStops(r: Request, script: seq<IoResult>)
    requires OutOk(r)
    ensures var s := SendOb(r, script);
            if r.out.bufferSent == |r.out.ob| then
              s == Sent(OK, r.(out := r.out.(ob := "", bufferSent := 0)), script, "")
            else if script == [] then s == Sent(AGAIN, r, [], "")
            else match script[0]
                 case NotNow => s == Sent(AGAIN, r, script[1..], "")
                 case Broken => s == Sent(ERROR, r, script[1..], "")
                 case Accept(_) => true
  {
  }

  lemma SendFileStops(r: Request, script: seq<IoResult>)
    requires OutOk(r) && r.out.resHandler == SendFile
    ensures var s := HandleSendFile(r, script);
            if r.file.size == 0 || r.out.fileSent == |r.file.resource.value| then
              s == Sent(OK, r.(responseDone := true), script, "")
            else if script == [] then s == Sent(AGAIN, r, [], "")
            else match script[0]
                 case NotNow => s == Sent(AGAIN, r, script[1..], "")
                 case Broken => s == Sent(ERROR, r, script[1..], "")
                 case Accept(_) => true
  {
  }

  /** A piece of the buffer moves from what is left to the wire. */
  lemma PieceOfBuffer(r: Request, k: nat)
    requires OutOk(r) && r.out.bufferSent + k <= |r.out.ob|
    ensures var at := r.out.bufferSent;
            BufferLeft(r) == r.out.ob[at..at + k] + BufferLeft(r.(out := r.out.(bufferSent := at + k)))
  {
  }

  lemma BufferIsOut(r: Request)
    requires OutOk(r) && r.out.bufferSent == |r.out.ob|
    ensures BufferLeft(r) == "" && BufferLeft(r.(out := r.out.(ob := "", bufferSent := 0))) == ""
  {
  }

  lemma {:induction false} SendObConserves(r: Request, script: seq<IoResult>)
    requires OutOk(r)
    ensures var s := SendOb(r, script);
            s.wire + BufferLeft(s.r) == BufferLeft(r) && (s.ret == OK ==> BufferLeft(s.r) == "")
    decreases |r.out.ob| - r.out.bufferSent
  {
    hide SendOb, Taken, BufferLeft;
    var at := r.out.bufferSent;
    SendObStops(r, script);
    if at == |r.out.ob| {
      BufferIsOut(r);
    } else if script != [] && script[0].Accept? {
      var k := Taken(script[0].n, |r.out.ob| - at);
      SendObTakes(r, script, "");
      PieceOfBuffer(r, k);
      var r1 := r.(out := r.out.(bufferSent := at + k));
      SendObConserves(r1, script[1..]);
      var s := SendOb(r1, script[1..]);
      Reassociate(r.out.ob[at..at + k], s.wire, BufferLeft(s.r));
    }
  }

  /** A piece of the file moves from what is left to the wire. */
  lemma PieceOfBody(r: Request, k: nat)
    requires OutOk(r) && r.file.resource.Some? && r.file.size != 0 && r.out.fileSent + k <= |r.file.resource.value|
    ensures var content, at := r.file.resource.value, r.out.fileSent;
            BodyLeft(r) == content[at..at + k] + BodyLeft(r.(out := r.out.(fileSent := at + k)))
  {
  }

  lemma BodyIsOut(r: Request)
    requires OutOk(r) && r.file.resource.Some? && (r.file.size == 0 || r.out.fileSent == |r.file.resource.value|)
    ensures BodyLeft(r) == "" && BodyLeft(r.(responseDone := true)) == ""
  {
  }

  lemma {:induction false} SendFileConserves(r: Request, script: seq<IoResult>)
    requires OutOk(r) && r.out.resHandler == SendFile
    ensures var s := HandleSendFile(r, script);
            && s.r.out.resHandler == SendFile
            && s.wire + BodyLeft(s.r) == BodyLeft(r)
            && (s.ret == OK ==> BodyLeft(s.r) == "")
            && (s.ret != OK ==> s.r.responseDone == r.responseDone)
    decreases |r.file.resource.value| - r.out.fileSent
  {
    hide HandleSendFile, BodyLeft;
    var content, at := r.file.resource.value, r.out.fileSent;
    SendFileStops(r, script);
    if r.file.size == 0 || at == |content| {
      BodyIsOut(r);
    } else if script != [] && script[0].Accept? {
      var k := Taken(script[0].n, Limit(r.file.size, |content| - at));
      SendFileTakes(r, script, "");
      PieceOfBody(r, k);
      var r1 := r.(out := r.out.(fileSent := at + k));
      SendFileConserves(r1, script[1..]);
      var s := HandleSendFile(r1, script[1..]);
      Reassociate(content[at..at + k], s.wire, BodyLeft(s.r));
    }
  }

  lemma SendBufferConserves(r: Request, script: seq<IoResult>)
    requires OutOk(r) && r.out.resHandler == SendBuffer
    ensures var s := HandleSendBuffer(r, script);
            && s.wire + Pending(s.r) == Pending(r)
            && (r.responseDone ==> s.r.responseDone)
            && (!r.responseDone && s.r.responseDone ==> s.ret == OK && s.wire == Pending(r))
  {
    hide SendOb, BufferLeft, BodyLeft;
    SendObConserves(r, script);
    var s, t := SendOb(r, script), HandleSendBuffer(r, script);
    SameLeft(s.r, t.r);
    BodyIsAsBefore(r, s.r);
    Reassociate(s.wire, BufferLeft(s.r), BodyLeft(r));
    NothingMore(s.wire);
    NothingMore(BodyLeft(r));
    if s.ret == OK && r.file.resource.None? {
      NoFileNoBody(r);
    }
  }

  lemma NothingMore(x: string)
    ensures x + "" == x && "" + x == x
  {
  }

  lemma SameLeft(r: Request, r': Request)
    requires OutOk(r) && OutOk(r') && r'.file == r.file && r'.out == r.out.(resHandler := r'.out.resHandler)
    ensures BufferLeft(r') == BufferLeft(r) && BodyLeft(r') == BodyLeft(r)
  {
  }

  lemma BodyIsAsBefore(r: Request, r': Request)
    requires OutOk(r) && OutOk(r') && r'.file == r.file && r'.out.fileSent == r.out.fileSent
    ensures BodyLeft(r') == BodyLeft(r)
  {
  }

  lemma NoFileNoBody(r: Request)
    requires OutOk(r) && r.file.resource.None?
    ensures BodyLeft(r) == ""
  {
  }

  /**
   * One visit: what went out and what is still to go is what was to go.  A response that was not marked done before is
   * so exactly when the visit ends in OK, and then nothing is left.
   */
  lemma RespondConserves(r: Request, script: seq<IoResult>)
    requires OutOk(r)
    ensures var s := Respond(r, script);
            && s.wire + Pending(s.r) == Pending(r)
            && (r.responseDone ==> s.r.responseDone)
            && (!r.responseDone ==> (s.ret == OK <==> s.r.responseDone))
            && (!r.responseDone && s.r.responseDone ==> s.wire == Pending(r))
  {
    hide HandleSendBuffer, HandleSendFile, BodyLeft;
    if r.out.resHandler == SendFile {
      SendFileConserves(r, script);
    } else {
      SendBufferConserves(r, script);
      var s := HandleSendBuffer(r, script);
      if s.ret == OK && !s.r.responseDone {
        SendFileConserves(s.r, s.rest);
        var t := HandleSendFile(s.r, s.rest);
        Reassociate(s.wire, t.wire, BodyLeft(t.r));
      }
    }
  }

  /** A whole response: visits to the socket until one of them finishes or fails. */
  function Transmit(r: Request, scripts: seq<seq<IoResult>>): Sent
    requires OutOk(r)
    decreases |scripts|
  {
    if scripts == [] then Sent(AGAIN, r, [], "")
    else
      var s := Respond(r, scripts[0]);
      if s.ret != AGAIN || s.r.responseDone then s
      else
        var t := Transmit(s.r, scripts[1..]);
        t.(wire := s.wire + t.wire)
  }

  /**
   * Over any number of visits the wire carries a prefix of what was to go, and all of it once response_done has been
   * set on the way.
   */
  lemma {:induction false} OutputIsConserved(r: Request, scripts: seq<seq<IoResult>>)
    requires OutOk(r)
    ensures var s := Transmit(r, scripts);
            && OutOk(s.r)
            && s.wire <= Pending(r)
            && s.wire + Pending(s.r) == Pending(r)
            && (!r.responseDone && s.r.responseDone ==> s.wire == Pending(r))
    decreases |scripts|
  {
    hide Respond, Pending;
    if scripts == [] {
      NothingMore(Pending(r));
    } else {
      RespondConserves(r, scripts[0]);
      var s := Respond(r, scripts[0]);
      FrontOf(s.wire, Pending(s.r));
      if !(s.ret != AGAIN || s.r.responseDone) {
        OutputIsConserved(s.r, scripts[1..]);
        var t := Transmit(s.r, scripts[1..]);
        Reassociate(s.wire, t.wire, Pending(t.r));
        FrontOf(s.wire + t.wire, Pending(t.r));
      }
    }
  }

  lemma FrontOf(x: string, y: string)
    ensures x <= x + y
  {
  }

  // ---------- responses that are marked done before they are sent ----------

  /** The socket takes n bytes before it answers anything but a count. */
  predicate Covers(script: seq<IoResult>, n: nat)
    decreases n
  {
    n == 0 || (script != [] && script[0].Accept? && Covers(script[1..], n - Taken(script[0].n, n)))
  }

  lemma {:induction false} SendObCovers(r: Request, script: seq<IoResult>)
    requires OutOk(r)
    ensures SendOb(r, script).ret == OK <==> Covers(script, |r.out.ob| - r.out.bufferSent)
    decreases |r.out.ob| - r.out.bufferSent
  {
    var at := r.out.bufferSent;
    if at < |r.out.ob| && script != [] && script[0].Accept? {
      var k := Taken(script[0].n, |r.out.ob| - at);
      SendObCovers(r.(out := r.out.(bufferSent := at + k)), script[1..]);
    }
  }

  /**
   * A response that is marked done before it is sent gets one visit: the whole of it goes out exactly when the socket
   * takes it in that visit without an EAGAIN.  Then, or with what is left of it thrown away, the connection is closed
   * or starts afresh, as keep-alive has it; only a broken socket closes it regardless.
   */
  lemma ErrorPageIsSentExactlyWhen(r: Request, script: seq<IoResult>)
    requires OutOk(r) && r.out.resHandler == SendBuffer && r.responseDone
    ensures var page, s := BufferLeft(r), ResponseHandle(r, script);
            && s.wire <= page
            && (s.wire == page <==> Covers(script, |page|))
            && (if r.keepAlive then s.r == FRESH else s.ret == ERROR)
            && (r.keepAlive && s.ret == ERROR ==> s.wire != page)
  {
    hide SendOb, BufferLeft, Covers;
    SendObCovers(r, script);
    SendObConserves(r, script);
    var s := SendOb(r, script);
    BufferLength(r);
    BufferLength(s.r);
    FrontOf(s.wire, BufferLeft(s.r));
    NothingMore(s.wire);
    LongerIsOther(s.wire, BufferLeft(s.r));
  }

  lemma BufferLength(r: Request)
    requires OutOk(r)
    ensures |BufferLeft(r)| == |r.out.ob| - r.out.bufferSent
  {
  }

  lemma LongerIsOther(x: string, y: string)
    ensures |y| > 0 ==> x + y != x
  {
    assert |x + y| == |x| + |y|;
  }

  // ---------- progress ----------

  predicate Willing(script: seq<IoResult>) {
    forall i | 0 <= i < |script| :: script[i].Accept?
  }

  lemma {:induction false} SendObFinishes(r: Request, script: seq<IoResult>)
    requires OutOk(r) && Willing(script) && |script| >= |r.out.ob| - r.out.bufferSent
    ensures var s := SendOb(r, script);
            s.ret == OK && Willing(s.rest) && |s.rest| >= |script| - (|r.out.ob| - r.out.bufferSent)
    decreases |r.out.ob| - r.out.bufferSent
  {
    var at := r.out.bufferSent;
    if at < |r.out.ob| {
      var k := Taken(script[0].n, |r.out.ob| - at);
      SendObFinishes(r.(out := r.out.(bufferSent := at + k)), script[1..]);
    }
  }

  lemma {:induction false} SendFileFinishes(r: Request, script: seq<IoResult>)
    requires OutOk(r) && r.out.resHandler == SendFile && Willing(script) && |script| >= |BodyLeft(r)|
    ensures HandleSendFile(r, script).ret == OK
    decreases |r.file.resource.value| - r.out.fileSent
  {
    var content, at := r.file.resource.value, r.out.fileSent;
    if r.file.size != 0 && at < |content| {
      var k := Taken(script[0].n, Limit(r.file.size, |content| - at));
      SendFileFinishes(r.(out := r.out.(fileSent := at + k)), script[1..]);
    }
  }

  /** A socket that takes a byte per call finishes the response in one visit. */
  lemma WillingSocketFinishes(r: Request, script: seq<IoResult>)
    requires OutOk(r) && Willing(script) && |script| >= |Pending(r)|
    ensures Respond(r, script).ret == OK && Respond(r, script).r.responseDone
  {
    if r.out.resHandler == SendFile {
      SendFileFinishes(r, script);
    } else {
      SendObFinishes(r, script);
      var s := HandleSendBuffer(r, script);
      if r.file.resource.Some? {
        SendFileFinishes(s.r, s.rest);
      }
    }
  }

  // ---------- the advertised length ----------

  predicate Fits(n: nat) {
    n < 0x8000_0000 || n % 0x1_0000_0000 == 0
  }

  /**
   * Content-Length is the number of body bytes exactly when the size survives the `int` it is stored in (or is lost to
   * 0, when nothing is sent), and the path does not name a directory without an index.html: there the size is that of
   * the directory while no body is sent.
   */
  lemma AdvertisedLengthIsRight(w: World, r: Request, f: File)
    requires r.out == FRESH.out && f != Missing
    ensures var r' := WithFile(w, r, f);
            && OutOk(r')
            && (|BodyLeft(r')| == r'.file.size <==>
                  match f
                  case Regular(content) => Fits(|content|)
                  case Directory(size, None) => size % 0x1_0000_0000 == 0
                  case Directory(_, Some(content)) => Fits(|content|)
                  case Missing => true)
  {
  }
}
