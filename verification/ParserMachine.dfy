// The parsers as the program runs them: loops over the buffer that update the fields of a parse archive in place.
// Each is proved to compute the function of HttpParser.dfy of the same name.
module ParserMachine {
  import opened HttpParser
  import opened Buffer

  /** `parse_method`: the length first, then byte by byte. */
  method MethodOf(b: Buffer, begin: int, end: int) returns (m: HttpMethod)
    requires b.Valid() && 0 <= begin <= end <= b.len
    ensures m == ParseMethod(b.Contents()[begin..end])
  {
    var len := end - begin;
    ghost var s := b.Contents()[begin..end];
    assert forall i | 0 <= i < len :: s[i] == b.data[begin + i];
    if len == 3 {
      assert s[0] == b.data[begin] && s[1] == b.data[begin + 1] && s[2] == b.data[begin + 2];
      if b.data[begin] == 'G' && b.data[begin + 1] == 'E' && b.data[begin + 2] == 'T' {
        assert s == "GET";
        return GET;
      } else if b.data[begin] == 'P' && b.data[begin + 1] == 'U' && b.data[begin + 2] == 'T' {
        assert s == "PUT";
        return PUT;
      } else {
        return INVALID;
      }
    } else if len == 4 {
      assert s[0] == b.data[begin] && s[1] == b.data[begin + 1] && s[2] == b.data[begin + 2]
             && s[3] == b.data[begin + 3];
      if b.data[begin] == 'P' && b.data[begin + 1] == 'O' && b.data[begin + 2] == 'S' && b.data[begin + 3] == 'T' {
        assert s == "POST";
        return POST;
      } else if b.data[begin] == 'H' && b.data[begin + 1] == 'E' && b.data[begin + 2] == 'A'
        && b.data[begin + 3] == 'D' {
        assert s == "HEAD";
        return HEAD;
      } else {
        return INVALID;
      }
    } else if len == 6 {
      assert s[0] == b.data[begin] && s[1] == b.data[begin + 1] && s[2] == b.data[begin + 2];
      assert s[3] == b.data[begin + 3] && s[4] == b.data[begin + 4] && s[5] == b.data[begin + 5];
      if b.data[begin] == 'D' && b.data[begin + 1] == 'E' && b.data[begin + 2] == 'L'
         && b.data[begin + 3] == 'E' && b.data[begin + 4] == 'T' && b.data[begin + 5] == 'E'
      {
        assert s == "DELETE";
        return DELETE;
      } else {
        return INVALID;
      }
    } else {
      return INVALID;
    }
  }

  /** The second loop of `parse_url`: from the end of the path back to the last '.' or '/'. */
  method Extension(b: Buffer, u: ReqUrl, size: nat) returns (r: ReqUrl)
    requires b.Valid() && size <= b.len
    requires 0 <= u.absPath.str && 0 <= u.absPath.len && u.absPath.str + u.absPath.len < size
    ensures r == WithExtension(b.Contents()[..size], u)
  {
    ghost var s := b.Contents()[..size];
    r := u;
    var absPathEnd := u.absPath.str + u.absPath.len;
    var p := absPathEnd;
    while p != u.absPath.str
      invariant u.absPath.str <= p <= absPathEnd
      invariant LastMark(s, u.absPath.str, p) == LastMark(s, u.absPath.str, absPathEnd)
      invariant r == u
      decreases p
    {
      assert s[p] == b.data[p];
      if b.data[p] == '.' {
        return u.(mime := Slice(p + 1, absPathEnd - p - 1));
      } else if b.data[p] == '/' {
        break;
      }
      p := p - 1;
    }
  }

  datatype UrlState = UrlBegin | UrlAbsPath | UrlQuery | UrlEnd

  /** What the loop of `parse_url` has found of the URL [start, end) of s when it is at p. */
  ghost predicate UrlProgress(s: string, start: nat, end: nat, p: nat, begin: int, state: UrlState, u: ReqUrl)
    requires start < end < |s| && p <= end + 1
  {
    var cut := FindEither(s, start + 1, end + 1, ' ', '?');
    var path := Slice(start, cut - start);
    match state
    case UrlBegin => p == start && begin == start && u == NO_URL
    case UrlAbsPath => start < p && begin == start && u == NO_URL && s[start] == '/'
      && cut == FindEither(s, p, end + 1, ' ', '?')
    case UrlQuery =>
      && cut < p && begin == cut + 1 && s[start] == '/' && s[cut] == '?' && u == ReqUrl(path, NO_SLICE, NO_SLICE)
      && FindEither(s, cut + 1, end + 1, ' ', ' ') == FindEither(s, p, end + 1, ' ', ' ')
    case UrlEnd =>
      && cut <= end && s[start] == '/'
      && if s[cut] == ' ' then u == ReqUrl(path, Slice(cut, 0), NO_SLICE)
         else
           var stop := FindEither(s, cut + 1, end + 1, ' ', ' ');
           stop <= end && u == ReqUrl(path, Slice(cut + 1, stop - cut - 1), NO_SLICE)
  }

  lemma UrlIsSplit(s: string, start: nat, end: nat, begin: int, state: UrlState, u: ReqUrl)
    requires |s| == end + 1 && start < end && UrlProgress(s, start, end, end + 1, begin, state, u)
    ensures s[start] == '/'
    ensures u.absPath == NO_SLICE ==> SplitUrl(s, start, end) == u
    ensures u.absPath != NO_SLICE ==>
              && 0 <= u.absPath.str && 0 <= u.absPath.len && u.absPath.str + u.absPath.len < |s|
              && SplitUrl(s, start, end) == WithExtension(s, u)
  {
    hide WithExtension;
  }

  /** While a URL is read, what there is of it holds neither blanks nor line ends: the first of these ends it. */
  ghost predicate UrlRead(s: string, p: int, a: Archive) {
    a.state == RlUrl ==> 0 <= a.urlBegin < p <= |s| && forall i | a.urlBegin <= i < p :: !IsBlank(s[i]) && !IsEol(s[i])
  }

  lemma UrlIsLeft(s: string, p: int, a: Archive)
    ensures forall n :: UrlRead(s, p, a.(nextParsePos := n, state := HdBegin))
    ensures UrlRead(s, p, a) ==> forall n :: UrlRead(s, p, a.(nextParsePos := n))
  {
  }

  /**
   * `parse_url` on the URL [start, end); b.data[end] is the byte that ended it.  None when it does not start with '/'.
   * A space can only be that byte, so the S_URL_END case is never entered.
   */
  method UrlOf(b: Buffer, start: int, end: int) returns (ok: bool, u: ReqUrl)
    requires b.Valid() && 0 <= start < end < b.len
    requires forall i | start <= i < end :: !IsBlank(b.Contents()[i])
    ensures ok <==> b.Contents()[start] == '/'
    ensures ok ==> u == SplitUrl(b.Contents()[..end + 1], start, end)
  {
    hide SplitUrl, WithExtension;
    ghost var s := b.Contents()[..end + 1];
    u := NO_URL;
    var begin := start;
    var state := UrlBegin;
    var p := start;
    while p != end + 1
      invariant start <= p <= end + 1
      invariant UrlProgress(s, start, end, p, begin, state, u)
      invariant state == UrlEnd ==> p == end + 1
      decreases end + 1 - p
    {
      var ch := b.data[p];
      assert s[p] == ch;
      match state {
        case UrlBegin =>
          if ch != '/' {
            return false, u;
          }
          state := UrlAbsPath;
        case UrlAbsPath =>
          if ch == ' ' {
            u := u.(absPath := Slice(begin, p - begin), query := Slice(p, 0));
            state := UrlEnd;
          } else if ch == '?' {
            u := u.(absPath := Slice(begin, p - begin));
            begin := p + 1;
            state := UrlQuery;
          }
        case UrlQuery =>
          if ch == ' ' {
            u := u.(query := Slice(begin, p - begin));
            state := UrlEnd;
          }
        case UrlEnd =>
          assert false;
      }
      p := p + 1;
    }
    ok := true;
    UrlIsSplit(s, start, end, begin, state, u);
    if u.absPath != NO_SLICE {
      u := Extension(b, u, end + 1);
    }
  }

  /** The fields of `parse_archive` that the parsers own. */
  class ParseArchive {
    var httpMethod: HttpMethod
    var version: Version
    var requestUrl: Slice
    var url: ReqUrl
    var contentLength: int
    var numHeaders: nat
    var headerName: Slice
    var headerValue: Slice
    var nextParsePos: int
    var state: State
    var methodBegin: int
    var urlBegin: int
    var headerLineBegin: int
    var headerColonPos: int
    var headerValBegin: int
    var headerValEnd: int
    var bodyReceived: nat
    var isCrlfLine: bool

    ghost function View(): Archive
      reads this
    {
      Archive(httpMethod, version, requestUrl, url, contentLength, numHeaders, headerName, headerValue, nextParsePos,
              state, methodBegin, urlBegin, headerLineBegin, headerColonPos, headerValBegin, headerValEnd,
              bodyReceived, isCrlfLine)
    }

    constructor ()
      ensures View() == INIT
    {
      new;
      Init();
    }

    /** `parse_archive_init` */
    method Init()
      modifies this
      ensures View() == INIT
    {
      ClearRequestLine();
      ClearRequestLineState();
      ClearHeaders();
      bodyReceived := 0;
      isCrlfLine := true;
      contentLength := -1;
    }

    method ClearRequestLine()
      modifies this
      ensures View() == old(View()).(httpMethod := DELETE, version := Version(0, 0),
              requestUrl := NO_SLICE, url := NO_URL)
    {
      httpMethod, version, requestUrl, url := DELETE, Version(0, 0), NO_SLICE, NO_URL;
    }

    method ClearRequestLineState()
      modifies this
      ensures View() == old(View()).(state := RlBegin, methodBegin := NULL, urlBegin := NULL, nextParsePos := 0)
    {
      state, methodBegin, urlBegin, nextParsePos := RlBegin, NULL, NULL, 0;
    }

    method ClearHeaders()
      modifies this
      ensures View() == old(View()).(numHeaders := 0, headerName := NO_SLICE, headerValue := NO_SLICE,
                                     headerLineBegin := NULL, headerColonPos := NULL,
                                       headerValBegin := NULL, headerValEnd := NULL)
    {
      numHeaders, headerName, headerValue := 0, NO_SLICE, NO_SLICE;
      headerLineBegin, headerColonPos, headerValBegin, headerValEnd := NULL, NULL, NULL, NULL;
    }

    /** The cases of the request-line switch up to the blanks before the URL. */
    method StepMethod(b: Buffer, p: int, ch: char) returns (verdict: Verdict)
      requires b.Valid() && 0 <= p < b.len && ch == b.data[p] && WellFormed(p, View()) && InMethod(state)
      modifies this
      ensures Stepped(View(), verdict) == MethodStep(b.Contents()[..p + 1], old(View()))
      ensures UrlRead(b.Contents(), p + 1, View())
    {
      hide ParseMethod;
      match state {
        case RlBegin =>
          if !IsAlpha(ch) {
            return Reject;
          }
          methodBegin := p;
          state := RlMethod;
        case RlMethod =>
          if IsAlpha(ch) {
          } else if ch == ' ' {
            assert b.Contents()[..p + 1][methodBegin..p] == b.Contents()[methodBegin..p];
            httpMethod := MethodOf(b, methodBegin, p);
            if httpMethod == INVALID {
              return Reject;
            }
            state := RlSpBeforeUrl;
          } else {
            return Reject;
          }
        case RlSpBeforeUrl =>
          if IsBlank(ch) {
          } else if IsEol(ch) {
            return Reject;
          } else {
            state := RlUrl;
            urlBegin := p;
            assert b.Contents()[p] == ch;
          }
      }
      return More;
    }

    method StepUrl(b: Buffer, p: int, ch: char) returns (verdict: Verdict)
      requires b.Valid() && 0 <= p < b.len && ch == b.data[p] && WellFormed(p, View()) && state == RlUrl
      requires UrlRead(b.Contents(), p, View())
      modifies this
      ensures Stepped(View(), verdict) == UrlStep(b.Contents()[..p + 1], old(View()))
      ensures verdict == More ==> UrlRead(b.Contents(), p + 1, View())
    {
      hide SplitUrl;
      if IsBlank(ch) {
        state := RlSpBeforeVersion;
        requestUrl := Slice(urlBegin, p - urlBegin);
        var ok, u := UrlOf(b, urlBegin, p);
        if !ok {
          return Reject;
        }
        url := u;
      } else if IsEol(ch) {
        return Reject;
      }
      return More;
    }

    method StepProtocol(ch: char) returns (verdict: Verdict)
      requires InProtocol(state)
      modifies this
      ensures Stepped(View(), verdict) == ProtocolStep(ch, old(View())) && state != RlUrl
    {
      match state {
        case RlSpBeforeVersion =>
          if IsBlank(ch) {
            return More;
          } else if ch == 'H' || ch == 'h' {
            state := RlVersionH;
          } else {
            return Reject;
          }
        case RlVersionH =>
          if ch != 'T' && ch != 't' {
            return Reject;
          }
          state := RlVersionHT;
        case RlVersionHT =>
          if ch != 'T' && ch != 't' {
            return Reject;
          }
          state := RlVersionHTT;
        case RlVersionHTT =>
          if ch != 'P' && ch != 'p' {
            return Reject;
          }
          state := RlVersionHTTP;
        case RlVersionHTTP =>
          if ch != '/' {
            return Reject;
          }
          state := RlVersionSlash;
      }
      return More;
    }

    method StepVersion(ch: char) returns (verdict: Verdict)
      requires InVersion(state)
      modifies this
      ensures Stepped(View(), verdict) == VersionStep(ch, old(View())) && state != RlUrl
    {
      match state {
        case RlVersionSlash =>
          if !IsDigit(ch) {
            return Reject;
          }
          version := version.(major := PushDigit(version.major, ch));
          state := RlVersionMajor;
        case RlVersionMajor =>
          if IsDigit(ch) {
            version := version.(major := PushDigit(version.major, ch));
            if version.major > 1 {
              return Reject;
            }
          } else if ch == '.' {
            state := RlVersionDot;
          } else {
            return Reject;
          }
        case RlVersionDot =>
          if !IsDigit(ch) {
            return Reject;
          }
          version := version.(minor := PushDigit(version.minor, ch));
          state := RlVersionMinor;
        case RlVersionMinor =>
          if IsDigit(ch) {
            version := version.(minor := PushDigit(version.minor, ch));
            if version.minor > 1 {
              return Reject;
            }
          } else if ch == '\r' {
            state := RlCrAfterVersion;
          } else {
            return Reject;
          }
        case RlCrAfterVersion =>
          if ch == '\n' {
            return Complete;
          }
          return Reject;
      }
      return More;
    }

    /** The switch of `parse_request_line`. */
    method StepRequestLine(b: Buffer, p: int, ch: char) returns (verdict: Verdict)
      requires b.Valid() && 0 <= p < b.len && ch == b.data[p] && WellFormed(p, View())
               && UrlRead(b.Contents(), p, View())
      modifies this
      ensures Stepped(View(), verdict) == RequestLineStep(b.Contents()[..p + 1], old(View()))
      ensures verdict == More ==> UrlRead(b.Contents(), p + 1, View())
    {
      hide MethodStep, UrlStep, ProtocolStep, VersionStep, WellFormed;
      verdict := More;
      if InMethod(state) {
        verdict := StepMethod(b, p, ch);
      } else if state == RlUrl {
        verdict := StepUrl(b, p, ch);
      } else if InProtocol(state) {
        verdict := StepProtocol(ch);
      } else if InVersion(state) {
        verdict := StepVersion(ch);
      }
    }

    /** `parse_request_line` */
    method ParseRequestLine(b: Buffer) returns (status: Status)
      requires b.Valid() && Ready(b.Contents(), View()) && UrlRead(b.Contents(), nextParsePos, View())
      modifies this
      ensures Parsed(status, View()) == Parse(RequestLine, b.Contents(), old(View()))
      ensures status != InvalidRequest ==> UrlRead(b.Contents(), nextParsePos, View())
    {
      hide RequestLineStep, WellFormed, UrlRead;
      ghost var s := b.Contents();
      var p := nextParsePos;
      while p < b.len
        invariant 0 <= p <= b.len && WellFormed(p, View()) && UrlRead(s, p, View())
        invariant Run(RequestLine, s, p, View()) == old(Parse(RequestLine, s, View()))
      {
        var verdict := StepRequestLine(b, p, b.data[p]);
        UrlIsLeft(s, p + 1, View());
        if verdict == Complete {
          nextParsePos := p + 1;
          state := HdBegin;
          return Ok;
        } else if verdict == Reject {
          return InvalidRequest;
        }
        p := p + 1;
      }
      UrlIsLeft(s, p, View());
      nextParsePos := b.len;
      return Again;
    }

    /** The switch of `parse_header_line`. */
    method StepHeader(p: int, ch: char) returns (verdict: Verdict)
      requires WellFormed(p, View())
      modifies this
      ensures Stepped(View(), verdict) == HeaderLineStep(p, ch, old(View()))
    {
      hide WellFormed;
      match state {
        case HdBegin =>
          if IsNameChar(ch) {
            state := HdName;
            headerLineBegin := p;
            isCrlfLine := false;
          } else if ch == '\r' {
            state := HdCrAfterVal;
            isCrlfLine := true;
          } else if !IsBlank(ch) {
            return Reject;
          }
        case HdName =>
          if IsNameChar(ch) {
          } else if ch == ':' {
            state := HdColon;
            headerColonPos := p;
          } else {
            return Reject;
          }
        case HdColon =>
          if IsBlank(ch) {
            state := HdSpBeforeVal;
          } else if IsEol(ch) {
            return Reject;
          } else {
            state := HdVal;
            headerValBegin := p;
          }
        case HdSpBeforeVal =>
          if IsBlank(ch) {
          } else if IsEol(ch) {
            return Reject;
          } else {
            state := HdVal;
            headerValBegin := p;
          }
        case HdVal =>
          if ch == '\r' {
            headerValEnd := p;
            state := HdCrAfterVal;
          } else if ch == '\n' {
            state := HdLfAfterVal;
          }
        case HdCrAfterVal =>
          if ch == '\n' {
            return Complete;
          }
          return Reject;
        case _ =>
      }
      return More;
    }

    /** The code after the label of `parse_header_line`; the two assertions are those of HEADER_SET. */
    method HeaderDone(p: nat) returns (status: Status)
      requires NoOpenLine(View())
      modifies this
      ensures Parsed(status, View()) == Finish(HeaderLine, p, old(View()))
    {
      nextParsePos := p + 1;
      state := HdBegin;
      numHeaders := numHeaders + 1;
      assert headerLineBegin <= headerColonPos;
      headerName := Slice(headerLineBegin, headerColonPos - headerLineBegin);
      assert headerValBegin <= headerValEnd;
      headerValue := Slice(headerValBegin, headerValEnd - headerValBegin);
      return if isCrlfLine then CrlfLine else Ok;
    }

    /** `parse_header_line` */
    method ParseHeaderLine(b: Buffer) returns (status: Status)
      requires b.Valid() && Ready(b.Contents(), View())
      modifies this
      ensures Parsed(status, View()) == Parse(HeaderLine, b.Contents(), old(View()))
    {
      hide HeaderLineStep, WellFormed, Finish, NoOpenLine;
      ghost var s := b.Contents();
      var p := nextParsePos;
      while p < b.len
        invariant 0 <= p <= b.len && WellFormed(p, View())
        invariant Run(HeaderLine, s, p, View()) == old(Parse(HeaderLine, s, View()))
      {
        assert s[..p + 1][p] == b.data[p];
        var verdict := StepHeader(p, b.data[p]);
        if verdict == Complete {
          status := HeaderDone(p);
          return;
        } else if verdict == Reject {
          return InvalidRequest;
        }
        p := p + 1;
      }
      nextParsePos := b.len;
      return Again;
    }

    /** `parse_header_body_identity` */
    method ParseHeaderBodyIdentity(b: Buffer) returns (status: Status)
      requires b.Valid() && 0 <= nextParsePos <= b.len
      modifies this
      ensures Parsed(status, View()) == ParseBody(b.Contents(), old(View()))
    {
      if contentLength <= 0 {
        return Ok;
      }
      var received := b.len - nextParsePos;
      bodyReceived := bodyReceived + received;
      nextParsePos := b.len;
      return if bodyReceived >= contentLength then Ok else Again;
    }
  }
}
