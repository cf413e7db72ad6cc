// The request handlers as the program runs them: methods that update the request, its parse archive and its input
// buffer in place.  Each is proved to compute the function of Request.dfy or Response.dfy of the same name.
module RequestMachine {
  import opened Common
  import opened HttpParser
  import opened ParserMachine
  import opened R = Request
  import opened Response
  import B = Buffer
  import D = Dict

  /** `header_handler_dict_init` */
  method HeaderHandlerDict(signed: bool) returns (dict: D.Dict<Callback>)
    ensures dict.Valid() && dict.puts == HF_LIST && fresh(dict) && fresh(dict.table)
  {
    dict := new D.Dict<Callback>(signed);
    var i := 0;
    while i < |HF_LIST|
      invariant 0 <= i <= |HF_LIST|
      invariant dict.Valid() && dict.puts == HF_LIST[..i]
      invariant fresh(dict) && fresh(dict.table)
    {
      dict.Put(HF_LIST[i].0, HF_LIST[i].1);
      i := i + 1;
    }
  }

  /** `request_t` */
  class LiveRequest {
    const dict: D.Dict<Callback>
    const ib: B.Buffer
    const par: ParseArchive
    var keepAlive: bool
    var transferEncoding: TransferEncoding
    var slots: map<string, Slice>
    var responseDone: bool
    var errReq: bool
    var file: Served
    var statusCode: int
    var handler: Handler
    var out: Output
    var ev: Interest

    ghost predicate Valid()
      reads this`handler, dict, dict.table, ib, ib.data, par
    {
      && dict.Valid() && dict.puts == HF_LIST && ib.Valid()
      && CrHeld(ib.Contents(), par.View())
      && (handler == OnRequestLine ==> UrlRead(ib.Contents(), par.nextParsePos, par.View()))
    }

    ghost function View(): R.Request
      requires ib.Valid()
      reads this, ib, ib.data, par
    {
      Request(ib.Contents(), par.View(), keepAlive, transferEncoding, slots, responseDone, errReq, file, statusCode,
              handler, out, ev)
    }

    /** `request_init` */
    constructor (dict: D.Dict<Callback>)
      requires dict.Valid() && dict.puts == HF_LIST
      ensures Valid() && View() == FRESH && fresh(ib) && fresh(ib.data) && fresh(par)
      ensures this.dict == dict
    {
      this.dict := dict;
      ib := new B.Buffer(B.BUFSIZ);
      par := new ParseArchive();
      slots, file, out := map[], Served(None, 0, false), Output(SendBuffer, "", 0, 0);
      keepAlive, transferEncoding, responseDone, errReq := false, TeIdentity, false, false;
      statusCode, handler, ev := 200, OnRequestLine, Interest(true, false);
    }

    /** `request_reset`: the old bytes stay in the buffer, but the request cannot be told from a new one. */
    method Reset()
      requires Valid()
      modifies this, ib, par
      ensures Valid() && View() == R.Reset(old(View()))
    {
      ZeroFields();
      ib.Clear();
      par.Init();
    }

    method ZeroFields()
      requires ib.Valid()
      modifies this
      ensures View() == R.Reset(old(View())).(ib := old(ib.Contents()), ar := old(par.View()))
    {
      hide ParseArchive.View, B.Buffer.Contents;
      slots, file, out := map[], Served(None, 0, false), Output(SendBuffer, "", 0, 0);
      keepAlive, transferEncoding, responseDone, errReq := false, TeIdentity, false, false;
      statusCode, handler := 200, OnRequestLine;
    }

    /** `response_assemble_err_buffer` */
    method AssembleErr(w: World, code: int)
      requires ib.Valid()
      modifies this
      ensures View() == ErrResponse(w, old(View()), code)
    {
      var minor := par.version.minor;
      assert minor == View().ar.version.minor;
      hide ParseArchive.View, B.Buffer.Contents;
      handler := NoHandler;
      errReq := true;
      statusCode := code;
      keepAlive := false;
      out := out.(ob := out.ob + w.render(Head(minor, code, "html", |w.page(code)|, false, true)));
      out := out.(ob := out.ob + w.page(code));
      Reassociate(old(out.ob), w.render(Head(minor, code, "html", |w.page(code)|, false, true)), w.page(code));
      ev := Interest(false, true);
      responseDone := true;
    }

    /** `request_handle_request_line` */
    method HandleRequestLine(w: World) returns (ret: Ret)
      requires Valid() && Ready(ib.Contents(), par.View()) && handler == OnRequestLine
      modifies this, ib.data, par
      ensures Valid() && (ret, View()) == R.HandleRequestLine(w, old(View()))
    {
      hide Run, WellFormed, CString, WithFile, ErrResponse, R.AfterRequestLine;
      RunKeepsCr(RequestLine, ib.Contents(), par.nextParsePos, par.View());
      var status := par.ParseRequestLine(ib);
      if status == Again {
        return AGAIN;
      }
      if status != Ok {
        AssembleErr(w, 400);
        return OK;
      }
      ret := AfterRequestLine(w);
    }

    /** The rest of the handler, from the version check on. */
    method AfterRequestLine(w: World) returns (ret: Ret)
      requires Valid() && par.state == HdBegin
      modifies this, ib.data
      ensures Valid() && (ret, View()) == R.AfterRequestLine(w, old(View()))
    {
      hide CString, WithFile, ErrResponse;
      if par.version.major > 1 || par.version.minor > 1 {
        AssembleErr(w, 505);
        return OK;
      }
      keepAlive := par.version.major == 1 && par.version.minor == 1;
      var end := ScanPath();
      if end == -1 {
        return FAULT;
      }
      ib.data[end] := '\0';
      assert ib.Contents() == old(ib.Contents())[end := '\0'];
      UseFile(w, w.open(RelativePath(ib.data[..ib.len], par.url.absPath)));
      return OK;
    }

    /** The scan for the end of the path; -1 when the pointer is NULL or runs out of the buffer. */
    method ScanPath() returns (end: int)
      requires ib.Valid()
      ensures end == match PathEnd(ib.Contents(), par.url.absPath) case Some(p) => p case None => -1
    {
      ghost var s := ib.Contents();
      var p := par.url.absPath.str;
      if p < 0 || p >= ib.len {
        return -1;
      }
      while p < ib.len && ib.data[p] != ' ' && ib.data[p] != '?'
        invariant 0 <= par.url.absPath.str <= p <= ib.len
        invariant FindEither(s, par.url.absPath.str, |s|, ' ', '?') == FindEither(s, p, |s|, ' ', '?')
      {
        assert s[p] == ib.data[p];
        p := p + 1;
      }
      if p == ib.len {
        return -1;
      }
      assert s[p] == ib.data[p];
      return p;
    }

    method UseFile(w: World, f: File)
      requires ib.Valid()
      modifies this
      ensures View() == WithFile(w, old(View()), f)
    {
      match f
      case Missing => AssembleErr(w, 404);
      case Regular(content) =>
        file := Served(Some(content), Int32(|content|), false);
        handler := OnHeaders;
      case Directory(size, None) =>
        file := Served(None, Int32(size), true);
        handler := OnHeaders;
      case Directory(_, Some(content)) =>
        file := Served(Some(content), Int32(|content|), true);
        handler := OnHeaders;
    }

    /** `ssstr_tolower` on a slice of the input buffer. */
    method LowerInPlace(s: Slice)
      requires ib.Valid() && Inside(ib.len, s)
      modifies ib.data
      ensures ib.Contents() == Lowered(old(ib.Contents()), s)
    {
      var i := 0;
      while i < s.len
        invariant 0 <= i && (s.len > 0 ==> i <= s.len) && (s.len <= 0 ==> i == 0)
        invariant forall j | 0 <= j < ib.data.Length ::
                    ib.data[j] == if s.str <= j < s.str + i then ToLower(old(ib.data[j])) else old(ib.data[j])
      {
        ib.data[s.str + i] := ToLower(ib.data[s.str + i]);
        i := i + 1;
      }
    }

    /**
     * `ssstr_caseequal`: strncasecmp on the buffer from the start of the slice on, with no regard to its length.  The
     * CR behind the slice stops it.
     */
    method CaseEqualInPlace(s: Slice, literal: string) returns (equal: bool)
      requires ib.Valid() && EndsInCr(ib.Contents(), s) && '\r' !in literal
      ensures equal == CaseEqual(Text(ib.Contents(), s), literal)
    {
      ghost var b := ib.Contents();
      CaseEqualStaysInSlice(b, s, literal);
      var i := 0;
      while i < |literal|
        invariant 0 <= i <= |literal| && i <= s.len
        invariant CaseEqualAt(b, s.str, literal) == CaseEqualAt(b, s.str + i, literal[i..])
        decreases |literal| - i
      {
        assert b[s.str + i] == ib.data[s.str + i];
        if ToLower(ib.data[s.str + i]) != literal[i] {
          return false;
        }
        assert literal[i] in literal;
        assert literal[i..][1..] == literal[i + 1..];
        i := i + 1;
      }
      return true;
    }

    method SetConnection(w: World, s: Slice)
      requires ib.Valid() && EndsInCr(ib.Contents(), s)
      modifies this
      ensures View() == WithConnection(w, old(View()), Text(old(ib.Contents()), s))
    {
      hide CaseEqual, Text, EndsInCr;
      var keep := CaseEqualInPlace(s, "keep-alive");
      if keep {
        keepAlive := true;
        return;
      }
      var shut := CaseEqualInPlace(s, "close");
      if shut {
        keepAlive := false;
      } else {
        AssembleErr(w, 400);
      }
    }

    method SetContentLength(w: World, text: string)
      requires ib.Valid()
      modifies this, par
      ensures View() == WithContentLength(w, old(View()), text)
    {
      var n := w.atoi(text);
      if n <= 0 {
        AssembleErr(w, 400);
      } else {
        par.contentLength := n;
      }
    }

    /** The chain of comparisons of `request_handle_hd_transfer_encoding`. */
    method CodingInPlace(s: Slice) returns (te: Option<TransferEncoding>)
      requires ib.Valid() && EndsInCr(ib.Contents(), s)
      ensures te == Coding(Text(ib.Contents(), s))
    {
      hide CaseEqual, Text, EndsInCr;
      var equal := CaseEqualInPlace(s, "chunked");
      if equal { return Some(TeChunked); }
      equal := CaseEqualInPlace(s, "compress");
      if equal { return Some(TeCompress); }
      equal := CaseEqualInPlace(s, "deflate");
      if equal { return Some(TeDeflate); }
      equal := CaseEqualInPlace(s, "gzip");
      if equal { return Some(TeGzip); }
      equal := CaseEqualInPlace(s, "identity");
      if equal { return Some(TeIdentity); }
      return None;
    }

    method SetTransferEncoding(w: World, s: Slice)
      requires ib.Valid() && EndsInCr(ib.Contents(), s)
      modifies this
      ensures View() == WithTransferEncoding(w, old(View()), Text(old(ib.Contents()), s))
    {
      hide Coding, Text, EndsInCr;
      var coding := CodingInPlace(s);
      match coding
      case Some(te) =>
        transferEncoding := te;
        AssembleErr(w, 501);
      case None =>
        AssembleErr(w, 400);
    }

    /** A complete header: its name is lowered in place and looked up, its callback called. */
    method OnHeader(w: World)
      requires Valid() && Inside(ib.len, par.headerName) && par.state == HdBegin
      requires EndsInCr(ib.Contents(), par.headerValue)
      modifies this, ib.data, par
      ensures Valid() && View() == R.OnHeader(w, old(View()))
    {
      hide CaseEqual, Coding, ErrResponse, WithConnection, WithContentLength, WithTransferEncoding, Lowered, Lookup,
           EndsInCr;
      CrIsLowered(ib.Contents(), par.headerName, par.headerValue);
      LowerInPlace(par.headerName);
      var name := Text(ib.data[..ib.len], par.headerName);
      var found := dict.Get(name);
      if found.None? {
        return;
      }
      slots := slots[name := par.headerValue];
      match found.value
      case Base =>
      case Connection => SetConnection(w, par.headerValue);
      case ContentLength => SetContentLength(w, Text(ib.data[..ib.len], par.headerValue));
      case TransferCoding => SetTransferEncoding(w, par.headerValue);
    }

    /** Lowering leaves a CR what it is. */
    lemma CrIsLowered(b: string, name: Slice, value: Slice)
      requires EndsInCr(b, value)
      ensures EndsInCr(Lowered(b, name), value)
    {
      assert ToLower('\r') == '\r';
    }

    /** One round of the header loop: the next line, and what it leads to.  `more` when the loop goes on. */
    method NextHeader(w: World) returns (more: bool, ret: Ret)
      requires Valid() && Ready(ib.Contents(), par.View()) && handler != OnRequestLine
      modifies this, ib.data, par
      ensures Valid() && handler != OnRequestLine
      ensures more ==>
                && Ready(ib.Contents(), par.View()) && ib.len - par.nextParsePos < old(ib.len - par.nextParsePos)
                && R.HandleHeaders(w, View()) == R.HandleHeaders(w, old(View()))
      ensures !more ==> (ret, View()) == R.HandleHeaders(w, old(View()))
    {
      hide Run, WellFormed, ErrResponse, R.OnHeader, CrHeld, EndsInCr;
      RunKeepsCr(HeaderLine, ib.Contents(), par.nextParsePos, par.View());
      var status := par.ParseHeaderLine(ib);
      match status {
        case Again =>
          return false, AGAIN;
        case InvalidRequest =>
          AssembleErr(w, 400);
          return false, OK;
        case CrlfLine =>
          handler := OnBody;
          return false, OK;
        case Ok =>
          StillReady(w, View());
          OnHeader(w);
          return true, OK;
      }
    }

    /** `request_handle_headers` */
    method HandleHeaders(w: World) returns (ret: Ret)
      requires Valid() && Ready(ib.Contents(), par.View()) && handler != OnRequestLine
      modifies this, ib.data, par
      ensures Valid() && (ret, View()) == R.HandleHeaders(w, old(View()))
    {
      hide R.HandleHeaders, WellFormed, CrHeld;
      var more := true;
      ret := OK;
      while more
        invariant Valid() && handler != OnRequestLine
        invariant more ==> Ready(ib.Contents(), par.View())
        invariant more ==> R.HandleHeaders(w, View()) == R.HandleHeaders(w, old(View()))
        invariant !more ==> (ret, View()) == R.HandleHeaders(w, old(View()))
        decreases more, ib.len - par.nextParsePos
      {
        more, ret := NextHeader(w);
      }
    }

    lemma StillReady(w: World, r: R.Request)
      requires Ready(r.ib, r.ar)
      ensures var r' := R.OnHeader(w, r); Ready(r'.ib, r'.ar)
    {
      hide R.OnHeader;
    }

    /** `request_handle_body` */
    method HandleBody(w: World) returns (ret: Ret)
      requires Valid() && Ready(ib.Contents(), par.View()) && handler != OnRequestLine
      modifies this, par
      ensures Valid() && (ret, View()) == R.HandleBody(w, old(View()))
    {
      hide Text, CrHeld, WellFormed, Assemble, ErrResponse;
      if transferEncoding != TeIdentity {
        AssembleErr(w, 501);
        return OK;
      }
      BodyKeepsCr(ib.Contents(), par.View());
      var status := par.ParseHeaderBodyIdentity(ib);
      if status == Again {
        return AGAIN;
      }
      FinishRequest(w);
      return OK;
    }

    lemma BodyKeepsCr(b: string, ar: Archive)
      requires 0 <= ar.nextParsePos <= |b| && CrHeld(b, ar)
      ensures CrHeld(b, ParseBody(b, ar).ar)
    {
    }

    /** The body is there: the response is assembled and output armed. */
    method FinishRequest(w: World)
      requires ib.Valid()
      modifies this
      ensures View() == Assemble(w, old(View()).(ev := Interest(false, true), handler := NoHandler))
              && handler == NoHandler
    {
      hide Assemble, ParseArchive.View, B.Buffer.Contents;
      ev := Interest(false, true);
      handler := NoHandler;
      AssembleOk(w);
    }

    /** `response_assemble_buffer` */
    method AssembleOk(w: World)
      requires ib.Valid()
      modifies this`out
      ensures View() == Assemble(w, old(View()))
    {
      if errReq {
        out := out.(ob := out.ob
          + w.render(Head(par.version.minor, statusCode, "html", |w.page(statusCode)|, keepAlive, true)));
      } else {
        var mime := if file.htmlMime then "html" else Text(ib.data[..ib.len], par.url.mime);
        out := out.(ob := out.ob + w.render(Head(par.version.minor, statusCode, mime, file.size, keepAlive, false)));
      }
    }

    /**
     * `request_handle`: what has been received is appended, then the handlers run while they answer OK and there is
     * one.
     */
    method RequestHandle(w: World, bytes: string, end: RecvEnd) returns (ret: Ret)
      requires Valid() && Ready(ib.Contents(), par.View()) && handler != NoHandler
      requires |bytes| <= ib.free
      modifies this, ib, ib.data, par
      ensures Valid() && (ret, View()) == R.RequestHandle(w, old(View()), bytes, end)
    {
      hide R.HandleRequestLine, R.HandleHeaders, R.HandleBody, WellFormed, CrHeld;
      ReadyOnLonger(View(), bytes);
      CrOnLonger(ib.Contents(), bytes, par.View());
      var _ := ib.Cat(bytes);
      if end != WouldBlock {
        return ERROR;
      }
      ghost var r1 := View();
      assert r1 == old(View()).(ib := old(ib.Contents()) + bytes);
      ret := OK;
      while handler != NoHandler && ret == OK
        invariant Valid()
        invariant ret == OK && handler != NoHandler
                  ==> Ready(ib.Contents(), par.View()) && Drive(w, r1) == Drive(w, View())
        invariant ret != OK || handler == NoHandler ==> Drive(w, r1) == (ret, View())
        decreases if ret == OK then Rank(handler) else 0
      {
        match handler {
          case OnRequestLine => ret := HandleRequestLine(w);
          case OnHeaders => ret := HandleHeaders(w);
          case OnBody => ret := HandleBody(w);
        }
      }
    }

    lemma CrOnLonger(b: string, c: string, ar: Archive)
      requires CrHeld(b, ar)
      ensures CrHeld(b + c, ar)
    {
    }

    lemma ReadyOnLonger(r: R.Request, bytes: string)
      requires Ready(r.ib, r.ar)
      ensures Ready(r.ib + bytes, r.ar)
    {
    }

    /** `response_send` */
    method SendResponse(script: seq<IoResult>) returns (ret: Ret, rest: seq<IoResult>, wire: string)
      requires ib.Valid() && OutOk(View())
      modifies this`out
      ensures Sent(ret, View(), rest, wire) == SendOb(old(View()), script)
    {
      hide SendOb, ParseArchive.View, B.Buffer.Contents, Taken;
      ghost var r0 := View();
      rest, wire := script, "";
      while true
        invariant OutOk(View())
        invariant SendOb(r0, script) == After(wire, SendOb(View(), rest))
        decreases |out.ob| - out.bufferSent
      {
        SendObStops(View(), rest);
        var at := out.bufferSent;
        if at == |out.ob| {
          out := out.(ob := "", bufferSent := 0);
          return OK, rest, wire;
        }
        if rest == [] {
          return AGAIN, rest, wire;
        }
        match rest[0] {
          case NotNow =>
            return AGAIN, rest[1..], wire;
          case Broken =>
            return ERROR, rest[1..], wire;
          case Accept(n) =>
            var k := Taken(n, |out.ob| - at);
            SendObTakes(View(), rest, wire);
            wire := wire + out.ob[at..at + k];
            out := out.(bufferSent := at + k);
            rest := rest[1..];
        }
      }
    }

    /** `response_handle_send_buffer` */
    method SendBufferHandler(script: seq<IoResult>) returns (ret: Ret, rest: seq<IoResult>, wire: string)
      requires ib.Valid() && OutOk(View())
      modifies this
      ensures Sent(ret, View(), rest, wire) == HandleSendBuffer(old(View()), script)
    {
      hide SendOb;
      ret, rest, wire := SendResponse(script);
      if ret != OK {
        return;
      }
      if file.resource.Some? {
        out := out.(resHandler := SendFile);
        return;
      }
      responseDone := true;
      ev := ev.(output := false);
    }

    /** `response_handle_send_file` */
    method SendFileHandler(script: seq<IoResult>) returns (ret: Ret, rest: seq<IoResult>, wire: string)
      requires ib.Valid() && OutOk(View()) && out.resHandler == SendFile
      modifies this`out, this`responseDone
      ensures Sent(ret, View(), rest, wire) == HandleSendFile(old(View()), script)
    {
      hide HandleSendFile, ParseArchive.View, B.Buffer.Contents, Taken;
      ghost var r0 := View();
      rest, wire := script, "";
      while true
        invariant OutOk(View()) && out.resHandler == SendFile
        invariant HandleSendFile(r0, script) == After(wire, HandleSendFile(View(), rest))
        decreases |file.resource.value| - out.fileSent
      {
        SendFileStops(View(), rest);
        var content, at := file.resource.value, out.fileSent;
        if file.size == 0 || at == |content| {
          responseDone := true;
          return OK, rest, wire;
        }
        if rest == [] {
          return AGAIN, rest, wire;
        }
        match rest[0] {
          case NotNow =>
            return AGAIN, rest[1..], wire;
          case Broken =>
            return ERROR, rest[1..], wire;
          case Accept(n) =>
            var k := Taken(n, Limit(file.size, |content| - at));
            SendFileTakes(View(), rest, wire);
            wire := wire + content[at..at + k];
            out := out.(fileSent := at + k);
            rest := rest[1..];
        }
      }
    }

    /** `r->res_handler(r)` */
    method CallResHandler(script: seq<IoResult>) returns (ret: Ret, rest: seq<IoResult>, wire: string)
      requires Valid() && OutOk(View())
      modifies this
      ensures Valid() && OutOk(View())
      ensures var s := Sent(ret, View(), rest, wire);
              Respond(old(View()), script)
              == if ret == OK && !responseDone then After(wire, Respond(View(), rest)) else s
      ensures ret == OK && !responseDone ==> old(out.resHandler) == SendBuffer && out.resHandler == SendFile
    {
      hide SendOb, HandleSendFile, ParseArchive.View, B.Buffer.Contents;
      if out.resHandler == SendBuffer {
        ret, rest, wire := SendBufferHandler(script);
      } else {
        ret, rest, wire := SendFileHandler(script);
      }
    }

    /** `response_handle` */
    method ResponseHandle(script: seq<IoResult>) returns (ret: Ret, wire: string)
      requires Valid() && OutOk(View())
      modifies this, ib, par
      ensures Valid()
      ensures var s := Response.ResponseHandle(old(View()), script);
              ret == s.ret && View() == s.r && wire == s.wire
    {
      hide Respond, CrHeld, OutOk;
      var rest := script;
      wire := "";
      NothingSent(Respond(View(), rest));
      while true
        invariant Valid() && OutOk(View())
        invariant Respond(old(View()), script) == After(wire, Respond(View(), rest))
        decreases out.resHandler == SendBuffer
      {
        var sent;
        ret, rest, sent := CallResHandler(rest);
        AfterAfter(wire, sent, Respond(View(), rest));
        wire := wire + sent;
        if ret != OK || responseDone {
          break;
        }
      }
      if responseDone {
        if keepAlive {
          Reset();
          ev := Interest(true, false);
        } else {
          return ERROR, wire;
        }
      }
    }

    lemma NothingSent(s: Sent)
      ensures After("", s) == s
    {
      assert "" + s.wire == s.wire;
    }
  }
}
