// What parse_url makes of a URL: section 3.2.2 of RFC 2616, abs_path [ "?" query ].
module UrlSplit {
  import opened Alphabet
  import opened HttpParser
  import opened RequestLineGrammar

  /** A URL as the request-line machine hands it over: [u, e), ended by a blank at e. */
  ghost predicate UrlAt(b: string, u: nat, e: nat) {
    UrlChars(b, u, e) && b[u] == '/' && e < |b| && Blank(b[e])
  }

  /** Path and query cut the URL [u, e) at its first '?'; without one the path is all of it and the query is empty. */
  ghost predicate Partitioned(b: string, u: nat, e: nat, r: ReqUrl)
    requires e <= |b|
  {
    var cut := u + r.absPath.len;
    && r.absPath.str == u && u < cut <= e
    && (forall i | u <= i < cut :: b[i] != '?')
    && if cut == e then r.query == Slice(e, 0) else b[cut] == '?' && r.query == Slice(cut + 1, e - cut - 1)
  }

  /**
   * With the last '/' of the path at `slash`, the extension is what follows the last '.' after it;
   * without a '.' there it is unset.
   */
  ghost predicate ExtensionAfter(b: string, path: Slice, mime: Slice, slash: nat)
    requires 0 <= path.str && path.str + path.len <= |b|
  {
    var end := path.str + path.len;
    && path.str <= slash < end && b[slash] == '/'
    && (forall i | slash < i < end :: b[i] != '/')
    && if mime == NO_SLICE then forall i | slash < i < end :: b[i] != '.'
       else
         && slash < mime.str - 1 && 0 <= mime.len && mime.str + mime.len == end
         && b[mime.str - 1] == '.'
         && forall i | mime.str <= i < end :: b[i] != '.'
  }

  ghost predicate ExtensionIsRight(b: string, r: ReqUrl)
    requires 0 <= r.absPath.str && r.absPath.str + r.absPath.len <= |b|
  {
    exists slash: nat :: ExtensionAfter(b, r.absPath, r.mime, slash)
  }

  lemma {:induction false} LastSlash(b: string, lo: nat, hi: nat) returns (slash: nat)
    requires lo < hi <= |b| && b[lo] == '/'
    ensures lo <= slash < hi && b[slash] == '/' && forall i | slash < i < hi :: b[i] != '/'
    decreases hi
  {
    if b[hi - 1] == '/' {
      slash := hi - 1;
    } else {
      slash := LastSlash(b, lo, hi - 1);
    }
  }

  lemma ExtensionFromMark(b: string, u: nat, end: nat, r: ReqUrl)
    requires u < end < |b| && b[u] == '/' && b[end] != '.' && b[end] != '/'
    requires r.absPath == Slice(u, end - u) && r.mime == NO_SLICE
    ensures ExtensionIsRight(b, WithExtension(b, r))
  {
    var slash := LastSlash(b, u, end);
    assert ExtensionAfter(b, r.absPath, WithExtension(b, r).mime, slash);
  }

  /** Path and query before the extension is looked for. */
  lemma SpaceEndedCut(b: string, u: nat, e: nat) returns (r: ReqUrl)
    requires UrlAt(b, u, e) && b[e] == ' '
    ensures Partitioned(b, u, e, r) && r.mime == NO_SLICE
    ensures b[u + r.absPath.len] == ' ' || b[u + r.absPath.len] == '?'
    ensures SplitUrl(b[..e + 1], u, e) == WithExtension(b[..e + 1], r)
  {
    hide WithExtension, LastMark, FindEither;
    var v := b[..e + 1];
    assert forall i | u <= i <= e :: v[i] == b[i];
    var cut := FindEither(v, u + 1, e + 1, ' ', '?');
    var path := Slice(u, cut - u);
    if v[cut] == ' ' {
      r := ReqUrl(path, Slice(cut, 0), NO_SLICE);
    } else {
      assert FindEither(v, cut + 1, e + 1, ' ', ' ') == e;
      r := ReqUrl(path, Slice(cut + 1, e - cut - 1), NO_SLICE);
    }
  }

  /**
   * A URL ended by a space: path and query partition it at the first '?' and the extension is that of the last path
   * segment.
   */
  lemma SpaceEndedUrl(b: string, u: nat, e: nat)
    requires UrlAt(b, u, e) && b[e] == ' '
    ensures var r := SplitUrl(b[..e + 1], u, e);
            Partitioned(b, u, e, r) && ExtensionIsRight(b, r)
  {
    hide SplitUrl;
    var r0 := SpaceEndedCut(b, u, e);
    var v := b[..e + 1];
    ExtensionFromMark(v, u, u + r0.absPath.len, r0);
    hide WithExtension;
    var r := WithExtension(v, r0);
    var slash: nat :| ExtensionAfter(v, r.absPath, r.mime, slash);
    assert ExtensionAfter(b, r.absPath, r.mime, slash);
  }

  /**
   * The request line also lets a TAB end the URL, but parse_url looks for spaces only: the path is then set exactly
   * when the URL holds a '?', and the query never.
   */
  lemma PathIsSetExactlyWhen(b: string, u: nat, e: nat)
    requires UrlAt(b, u, e)
    ensures var r := SplitUrl(b[..e + 1], u, e);
            && (r.absPath != NO_SLICE <==> b[e] == ' ' || '?' in b[u..e])
            && (r.query != NO_SLICE <==> b[e] == ' ')
  {
    var v := b[..e + 1];
    var cut := FindEither(v, u + 1, e + 1, ' ', '?');
    assert forall i | u <= i <= e :: v[i] == b[i];
    assert forall i | u <= i < e :: b[u..e][i - u] == b[i];
    if cut < e + 1 && v[cut] == '?' {
      assert b[u..e][cut - u] == '?';
    } else {
      assert forall i | u <= i < e :: b[i] != '?';
    }
  }

  /** The scan that request.c makes for the end of the path stops exactly there. */
  lemma ScanFindsPathEnd(b: string, u: nat, e: nat)
    requires UrlAt(b, u, e)
    requires SplitUrl(b[..e + 1], u, e).absPath != NO_SLICE
    ensures var path := SplitUrl(b[..e + 1], u, e).absPath;
            && path.str == u && 0 < path.len && u + path.len <= e
            && FindEither(b, u, |b|, ' ', '?') == u + path.len
  {
    var v := b[..e + 1];
    var cut := FindEither(v, u + 1, e + 1, ' ', '?');
    assert forall i | u <= i <= e :: v[i] == b[i];
    assert cut <= e;
    var f := FindEither(b, u, |b|, ' ', '?');
    assert f == cut;
  }

  /**
   * The one space that parse_url can find is the byte that ends the URL, and after a '?' too it is all that ends the
   * query.
   */
  lemma UrlEndIsTheLastByte(b: string, u: nat, e: nat)
    requires UrlAt(b, u, e)
    ensures FindEither(b, u, e + 1, ' ', ' ') == if b[e] == ' ' then e else e + 1
  {
  }
}
