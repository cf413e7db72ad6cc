// The language that parse_request_line accepts: its reading of Request-Line, section 5.1 of RFC 2616.
// The grammar is stated on positions of the input, without the machine; the two are proved equal.
module RequestLineGrammar {
  import opened Alphabet
  import opened HttpParser

  /**
   * Where the parts of a request line end:
   * method [0, m), blanks [m, u), url [u, e), blanks [e, h), "HTTP/" [h, h+5),
   * major [h+5, d), '.', minor [d+1, r), CR LF.
   */
  datatype Cuts = Cuts(m: nat, u: nat, e: nat, h: nat, d: nat, r: nat)

  // ---------- the methods ----------

  function MethodName(m: HttpMethod): string
    requires m != INVALID
  {
    match m
    case DELETE => "DELETE"
    case GET => "GET"
    case HEAD => "HEAD"
    case POST => "POST"
    case PUT => "PUT"
  }

  ghost predicate IsMethod(s: string) {
    exists m: HttpMethod :: m != INVALID && MethodName(m) == s
  }

  /** The method with this name, or INVALID when there is none. */
  ghost function MethodNamed(s: string): (m: HttpMethod)
    ensures m == INVALID <==> !IsMethod(s)
    ensures m != INVALID ==> MethodName(m) == s
  {
    if IsMethod(s) then var m: HttpMethod :| m != INVALID && MethodName(m) == s; m else INVALID
  }

  /** parse_method finds the method that has the name, and prints back as what was read. */
  lemma MethodIsTheNamed(s: string)
    ensures ParseMethod(s) == MethodNamed(s)
    ensures forall m: HttpMethod | m != INVALID && MethodName(m) == s :: ParseMethod(s) == m
  {
    assert ParseMethod(s) != INVALID ==> MethodName(ParseMethod(s)) == s;
  }

  // ---------- the grammar ----------

  ghost predicate Blanks(b: string, lo: int, hi: int) {
    0 <= lo < hi <= |b| && forall i | lo <= i < hi :: Blank(b[i])
  }

  ghost predicate UrlChars(b: string, lo: int, hi: int) {
    0 <= lo < hi <= |b| && forall i | lo <= i < hi :: !Blank(b[i]) && !LineEnd(b[i])
  }

  ghost predicate Digits(b: string, lo: int, hi: int) {
    0 <= lo < hi <= |b| && forall i | lo <= i < hi :: Decimal(b[i])
  }

  /** The number written in decimal in b[lo..hi]. */
  ghost function Value(b: string, lo: nat, hi: nat): nat
    requires lo <= hi <= |b|
    requires forall i | lo <= i < hi :: Decimal(b[i])
  {
    if lo == hi then 0 else Value(b, lo, hi - 1) * 10 + DigitValue(b[hi - 1])
  }

  /** A version number: any first digit, and every longer prefix has a value of at most 1. */
  ghost predicate Number(b: string, lo: nat, hi: nat) {
    Digits(b, lo, hi) && forall j | lo + 1 < j <= hi :: Value(b, lo, j) <= 1
  }

  ghost predicate MethodPart(b: string, m: nat) {
    m < |b| && IsMethod(b[..m]) && b[m] == ' '
  }

  ghost predicate UrlPart(b: string, u: nat, e: nat) {
    UrlChars(b, u, e) && b[u] == '/' && e < |b| && Blank(b[e])
  }

  /** The first n letters of "HTTP/" at position h, in either case. */
  ghost predicate ProtocolPrefix(b: string, h: nat, n: nat) {
    && h + n <= |b|
    && (1 <= n ==> b[h] == 'H' || b[h] == 'h')
    && (2 <= n ==> b[h + 1] == 'T' || b[h + 1] == 't')
    && (3 <= n ==> b[h + 2] == 'T' || b[h + 2] == 't')
    && (4 <= n ==> b[h + 3] == 'P' || b[h + 3] == 'p')
    && (5 <= n ==> b[h + 4] == '/')
  }

  /** A number from lo, ended by the given byte at hi. */
  ghost predicate NumberPart(b: string, lo: nat, hi: nat, stop: char) {
    Number(b, lo, hi) && hi < |b| && b[hi] == stop
  }

  /** Everything before the version numbers. */
  ghost predicate BeforeVersion(b: string, m: nat, u: nat, e: nat, h: nat) {
    BeforeSpace(b, m, u, e) && Blanks(b, e, h) && ProtocolPrefix(b, h, 5)
  }

  ghost predicate BeforeSpace(b: string, m: nat, u: nat, e: nat) {
    MethodPart(b, m) && Blanks(b, m, u) && UrlPart(b, u, e)
  }

  /** A request line stands at the start of b, cut at k. */
  ghost predicate LineAt(b: string, k: Cuts) {
    && BeforeVersion(b, k.m, k.u, k.e, k.h)
    && NumberPart(b, k.h + 5, k.d, '.')
    && NumberPart(b, k.d + 1, k.r, '\r')
    && k.r + 1 < |b| && b[k.r + 1] == '\n'
  }

  // ---------- lines that are not finished, and lines that are broken ----------

  /**
   * The parts of the line in order: 0 method, 1 blanks, 2 URL, 3 blanks, 4 protocol, 5 major, 6 minor, 7 CR LF.  Those
   * before part j are there in full.
   */
  ghost predicate Done(b: string, k: Cuts, j: nat) {
    && (1 <= j ==> MethodPart(b, k.m))
    && (2 <= j ==> Blanks(b, k.m, k.u) && k.u < |b| && !Blank(b[k.u]) && !LineEnd(b[k.u]))
    && (3 <= j ==> UrlPart(b, k.u, k.e))
    && (4 <= j ==> Blanks(b, k.e, k.h) && ProtocolPrefix(b, k.h, 1))
    && (5 <= j ==> ProtocolPrefix(b, k.h, 5))
    && (6 <= j ==> NumberPart(b, k.h + 5, k.d, '.'))
    && (7 <= j ==> NumberPart(b, k.d + 1, k.r, '\r'))
  }

  /** The bytes from the beginning of part j up to p are a beginning of it. */
  ghost predicate Doing(b: string, k: Cuts, j: nat, p: nat) {
    p <= |b| &&
    match j
    case 0 => forall i | 0 <= i < p :: Letter(b[i])
    case 1 => Blanks(b, k.m, p)
    case 2 => UrlChars(b, k.u, p)
    case 3 => Blanks(b, k.e, p)
    case 4 => k.h < p < k.h + 5 && ProtocolPrefix(b, k.h, p - k.h)
    case 5 => p == k.h + 5 || Number(b, k.h + 5, p)
    case 6 => p == k.d + 1 || Number(b, k.d + 1, p)
    case 7 => p == k.r + 1
    case _ => false
  }

  /** The byte at q neither goes on with part j nor ends it. */
  ghost predicate Breaks(b: string, k: Cuts, j: nat, q: nat) {
    q < |b| &&
    match j
    case 0 => !Letter(b[q]) && !(b[q] == ' ' && IsMethod(b[..q]))
    case 1 => LineEnd(b[q])
    case 2 => LineEnd(b[q]) || (Blank(b[q]) && k.u < |b| && b[k.u] != '/')
    case 3 => !Blank(b[q]) && !ProtocolPrefix(b, q, 1)
    case 4 => k.h < q && !ProtocolPrefix(b, k.h, q - k.h + 1)
    case 5 => !Number(b, k.h + 5, q + 1) && (b[q] == '.' ==> q == k.h + 5)
    case 6 => !Number(b, k.d + 1, q + 1) && (b[q] == '\r' ==> q == k.d + 1)
    case 7 => b[q] != '\n'
    case _ => false
  }

  /** All of b is the beginning of a line, as far as one can be told from its bytes. */
  ghost predicate OpenAt(b: string, k: Cuts, j: nat) {
    Done(b, k, j) && Doing(b, k, j, |b|)
  }

  /** The byte at q breaks the line in part j. */
  ghost predicate BrokenAt(b: string, k: Cuts, j: nat, q: nat) {
    Done(b, k, j) && Doing(b, k, j, q) && Breaks(b, k, j, q)
  }

  // ---------- the archive that each part leaves ----------

  ghost function AfterMethod(b: string, m: nat): Archive
    requires m <= |b|
  {
    INIT.(methodBegin := 0, httpMethod := MethodNamed(b[..m]))
  }

  ghost function AfterUrl(b: string, m: nat, u: nat, e: nat): Archive
    requires m <= |b| && u < e < |b|
  {
    AfterMethod(b, m).(urlBegin := u, requestUrl := Slice(u, e - u), url := SplitUrl(b[..e + 1], u, e))
  }

  ghost function LineVersion(b: string, k: Cuts): Version
    requires LineAt(b, k)
  {
    Version(Value(b, k.h + 5, k.d), Value(b, k.d + 1, k.r))
  }

  /** What the parser must have found on a line cut at k. */
  ghost function LineArchive(b: string, k: Cuts): Archive
    requires LineAt(b, k)
  {
    AfterUrl(b, k.m, k.u, k.e).(version := LineVersion(b, k), nextParsePos := k.r + 2, state := HdBegin)
  }

  // ---------- the invariant of the machine ----------

  /** After p bytes the machine is in `ar` and the parts it has left behind are cut at k. */
  ghost predicate At(b: string, p: nat, ar: Archive, k: Cuts) {
    && p <= |b|
    && match ar.state
       case RlBegin => p == 0 && ar == INIT
       case RlMethod => 0 < p && (forall i | 0 <= i < p :: Letter(b[i]))
         && ar == INIT.(methodBegin := 0, state := RlMethod)
       case RlSpBeforeUrl =>
         MethodPart(b, k.m) && Blanks(b, k.m, p) && ar == AfterMethod(b, k.m).(state := RlSpBeforeUrl)
       case RlUrl =>
         && MethodPart(b, k.m) && Blanks(b, k.m, k.u) && UrlChars(b, k.u, p)
         && ar == AfterMethod(b, k.m).(state := RlUrl, urlBegin := k.u)
       case RlSpBeforeVersion =>
         BeforeSpace(b, k.m, k.u, k.e) && Blanks(b, k.e, p)
           && ar == AfterUrl(b, k.m, k.u, k.e).(state := RlSpBeforeVersion, version := Version(0, 0))
       case RlVersionH => ProtocolAt(b, p, ar, k, 1)
       case RlVersionHT => ProtocolAt(b, p, ar, k, 2)
       case RlVersionHTT => ProtocolAt(b, p, ar, k, 3)
       case RlVersionHTTP => ProtocolAt(b, p, ar, k, 4)
       case RlVersionSlash => ProtocolAt(b, p, ar, k, 5)
       case RlVersionMajor =>
         Number(b, k.h + 5, p) && VersionAt(b, ar, k, Version(Value(b, k.h + 5, p), 0))
       case RlVersionDot =>
         NumberPart(b, k.h + 5, k.d, '.') && p == k.d + 1 && VersionAt(b, ar, k, Version(Value(b, k.h + 5, k.d), 0))
       case RlVersionMinor =>
         && NumberPart(b, k.h + 5, k.d, '.') && Number(b, k.d + 1, p)
         && VersionAt(b, ar, k, Version(Value(b, k.h + 5, k.d), Value(b, k.d + 1, p)))
       case RlCrAfterVersion =>
         && NumberPart(b, k.h + 5, k.d, '.') && NumberPart(b, k.d + 1, k.r, '\r') && p == k.r + 1
         && VersionAt(b, ar, k, Version(Value(b, k.h + 5, k.d), Value(b, k.d + 1, k.r)))
       case _ => false
  }

  ghost predicate ProtocolAt(b: string, p: nat, ar: Archive, k: Cuts, n: nat) {
    && BeforeSpace(b, k.m, k.u, k.e) && Blanks(b, k.e, k.h) && ProtocolPrefix(b, k.h, n) && p == k.h + n
    && ar == AfterUrl(b, k.m, k.u, k.e).(state := ar.state, version := Version(0, 0))
  }

  ghost predicate VersionAt(b: string, ar: Archive, k: Cuts, v: Version) {
    && BeforeVersion(b, k.m, k.u, k.e, k.h)
    && ar == AfterUrl(b, k.m, k.u, k.e).(state := ar.state, version := v)
  }

  /** The cut that byte p settles when the machine moves from one state to another. */
  ghost function Settle(before: State, after: State, p: nat, k: Cuts): Cuts {
    if before == RlMethod && after == RlSpBeforeUrl then k.(m := p)
    else if before == RlSpBeforeUrl && after == RlUrl then k.(u := p)
    else if before == RlUrl && after == RlSpBeforeVersion then k.(e := p)
    else if before == RlSpBeforeVersion && after == RlVersionH then k.(h := p)
    else if before == RlVersionMajor && after == RlVersionDot then k.(d := p)
    else if before == RlVersionMinor && after == RlCrAfterVersion then k.(r := p)
    else k
  }

  /** The part of the line that the machine is in. */
  ghost function PartOf(st: State): nat {
    match st
    case RlBegin => 0
    case RlMethod => 0
    case RlSpBeforeUrl => 1
    case RlUrl => 2
    case RlSpBeforeVersion => 3
    case RlVersionSlash => 5
    case RlVersionMajor => 5
    case RlVersionDot => 6
    case RlVersionMinor => 6
    case RlCrAfterVersion => 7
    case _ => 4
  }

  lemma AtIsOpen(b: string, p: nat, ar: Archive, k: Cuts)
    requires At(b, p, ar, k)
    ensures Done(b, k, PartOf(ar.state)) && Doing(b, k, PartOf(ar.state), p)
  {
    hide MethodPart, Number, Value, AfterUrl, LineVersion;
  }

  lemma AtIsWellFormed(b: string, p: nat, ar: Archive, k: Cuts)
    requires At(b, p, ar, k)
    ensures WellFormed(p, ar)
  {
  }

  lemma NumberGrows(b: string, lo: nat, p: nat)
    requires p < |b| && Decimal(b[p])
    requires lo == p || Number(b, lo, p)
    ensures Digits(b, lo, p + 1)
    ensures Number(b, lo, p) ==> lo < p
    ensures lo == p || Value(b, lo, p) <= 9
    ensures Value(b, lo, p + 1) <= 99
    ensures lo == p || Value(b, lo, p + 1) <= 1 ==> Number(b, lo, p + 1)
    ensures PushDigit(if lo == p then 0 else Value(b, lo, p), b[p]) == Value(b, lo, p + 1)
  {
    hide Letter, Decimal, DigitValue;
    if lo < p {
      if lo + 1 == p { assert Value(b, lo, p) == DigitValue(b[lo]); }
      assert Value(b, lo, p + 1) == Value(b, lo, p) * 10 + DigitValue(b[p]);
    }
  }

  ghost predicate Keeps(b: string, p: nat, ar: Archive, k: Cuts)
    requires p < |b| && WellFormed(p, ar)
  {
    var s := Step(RequestLine, b[..p + 1], ar);
    && (s.verdict == More ==> At(b, p + 1, s.ar, Settle(ar.state, s.ar.state, p, k)))
    && (s.verdict == Complete ==>
          LineAt(b, k) && p == k.r + 1 && Finish(RequestLine, p, s.ar) == Parsed(Ok, LineArchive(b, k)))
  }

  lemma MethodKeeps(b: string, p: nat, ar: Archive, k: Cuts)
    requires p < |b| && At(b, p, ar, k) && WellFormed(p, ar)
    requires InMethod(ar.state)
    ensures Keeps(b, p, ar, k)
  {
    hide Letter, SplitUrl, ParseMethod, MethodNamed, IsMethod, UrlStep, ProtocolStep, VersionStep, HeaderLineStep,
         Value, LineAt, LineArchive, VersionAt, ProtocolAt, Number, NumberPart, BeforeSpace;
    assert b[..p + 1][p] == b[p];
    if ar.state == RlMethod {
      hide AfterMethod, UrlChars;
      LettersKeep(b, p, ar, k);
    } else {
      hide MethodPart, AfterMethod, AfterUrl;
    }
  }

  lemma LettersKeep(b: string, p: nat, ar: Archive, k: Cuts)
    requires p < |b| && At(b, p, ar, k) && WellFormed(p, ar)
    requires ar.state == RlMethod
    ensures Keeps(b, p, ar, k)
  {
    hide Letter, SplitUrl, ParseMethod, MethodNamed, IsMethod, UrlStep, ProtocolStep, VersionStep, HeaderLineStep,
         Value, LineAt, LineArchive, VersionAt, ProtocolAt, Number, NumberPart, BeforeSpace, AfterUrl, UrlChars;
    assert b[..p + 1][p] == b[p];
    assert b[..p + 1][0..p] == b[..p];
    MethodIsTheNamed(b[..p]);
  }

  lemma UrlKeeps(b: string, p: nat, ar: Archive, k: Cuts)
    requires p < |b| && At(b, p, ar, k) && WellFormed(p, ar)
    requires ar.state == RlUrl
    ensures Keeps(b, p, ar, k)
  {
    hide SplitUrl, ParseMethod, MethodNamed, IsMethod, MethodStep, ProtocolStep, VersionStep, HeaderLineStep, Value,
         LineAt, LineArchive, VersionAt, ProtocolAt, MethodPart;
    assert b[..p + 1][p] == b[p];
    assert b[..p + 1][k.u] == b[k.u];
  }

  lemma ProtocolKeeps(b: string, p: nat, ar: Archive, k: Cuts)
    requires p < |b| && At(b, p, ar, k) && WellFormed(p, ar)
    requires InProtocol(ar.state)
    ensures Keeps(b, p, ar, k)
  {
    hide WellFormed, Number, SplitUrl, ParseMethod, MethodNamed, IsMethod, MethodStep, UrlStep, VersionStep,
         HeaderLineStep, Value, LineAt, LineArchive, VersionAt, BeforeSpace, AfterUrl;
    assert b[..p + 1][p] == b[p];
  }

  lemma FirstMajorKeeps(b: string, p: nat, ar: Archive, k: Cuts)
    requires p < |b| && At(b, p, ar, k) && WellFormed(p, ar)
    requires ar.state == RlVersionSlash
    ensures Keeps(b, p, ar, k)
  {
    hide Letter, Decimal, DigitValue, Number, PushDigit, WellFormed, MethodStep, UrlStep, ProtocolStep, HeaderLineStep,
         Value, BeforeSpace, AfterUrl, Blanks, ProtocolPrefix, LineAt, LineArchive;
    assert b[..p + 1][p] == b[p];
    if Decimal(b[p]) {
      NumberGrows(b, k.h + 5, p);
    }
  }

  lemma MajorKeeps(b: string, p: nat, ar: Archive, k: Cuts)
    requires p < |b| && At(b, p, ar, k) && WellFormed(p, ar)
    requires ar.state == RlVersionMajor
    ensures Keeps(b, p, ar, k)
  {
    hide Letter, Decimal, DigitValue, Number, PushDigit, WellFormed, MethodStep, UrlStep, ProtocolStep, HeaderLineStep,
         Value, BeforeVersion, AfterUrl, LineAt, LineArchive;
    assert b[..p + 1][p] == b[p];
    if Decimal(b[p]) {
      NumberGrows(b, k.h + 5, p);
    }
  }

  lemma FirstMinorKeeps(b: string, p: nat, ar: Archive, k: Cuts)
    requires p < |b| && At(b, p, ar, k) && WellFormed(p, ar)
    requires ar.state == RlVersionDot
    ensures Keeps(b, p, ar, k)
  {
    hide Letter, Decimal, DigitValue, Number, PushDigit, WellFormed, MethodStep, UrlStep, ProtocolStep, HeaderLineStep,
         Value, BeforeVersion, AfterUrl, NumberPart, LineAt, LineArchive;
    assert b[..p + 1][p] == b[p];
    if Decimal(b[p]) {
      NumberGrows(b, k.d + 1, p);
    }
  }

  lemma MinorKeeps(b: string, p: nat, ar: Archive, k: Cuts)
    requires p < |b| && At(b, p, ar, k) && WellFormed(p, ar)
    requires ar.state == RlVersionMinor
    ensures Keeps(b, p, ar, k)
  {
    hide Letter, Decimal, DigitValue, Number, PushDigit, WellFormed, MethodStep, UrlStep, ProtocolStep, HeaderLineStep,
         Value, BeforeVersion, AfterUrl, LineAt, LineArchive;
    assert b[..p + 1][p] == b[p];
    if Decimal(b[p]) {
      NumberGrows(b, k.d + 1, p);
    }
  }

  lemma EndKeeps(b: string, p: nat, ar: Archive, k: Cuts)
    requires p < |b| && At(b, p, ar, k) && WellFormed(p, ar)
    requires ar.state == RlCrAfterVersion
    ensures Keeps(b, p, ar, k)
  {
    hide MethodStep, UrlStep, ProtocolStep, HeaderLineStep, Value, BeforeVersion, AfterUrl;
    assert b[..p + 1][p] == b[p];
  }

  /** A byte that is rejected before the version. */
  lemma RejectBreaksFront(b: string, p: nat, ar: Archive, k: Cuts)
    requires p < |b| && At(b, p, ar, k) && WellFormed(p, ar)
    requires InMethod(ar.state) || ar.state == RlUrl
    requires Step(RequestLine, b[..p + 1], ar).verdict == Reject
    ensures Breaks(b, k, PartOf(ar.state), p)
  {
    hide SplitUrl, ParseMethod, MethodNamed, IsMethod, ProtocolStep, VersionStep, HeaderLineStep, Number, NumberPart,
         VersionAt, ProtocolAt, BeforeSpace, AfterUrl, ProtocolPrefix;
    assert b[..p + 1][p] == b[p];
    if ar.state == RlMethod {
      assert b[..p + 1][0..p] == b[..p];
      MethodIsTheNamed(b[..p]);
    } else if ar.state == RlUrl {
      assert b[..p + 1][k.u] == b[k.u];
    } else if ar.state == RlBegin && IsMethod(b[..0]) {
      MethodLetters(b[..0]);
    }
  }

  lemma RejectBreaksProtocol(b: string, p: nat, ar: Archive, k: Cuts)
    requires p < |b| && At(b, p, ar, k) && WellFormed(p, ar)
    requires InProtocol(ar.state)
    requires Step(RequestLine, b[..p + 1], ar).verdict == Reject
    ensures Breaks(b, k, PartOf(ar.state), p)
  {
    hide WellFormed, SplitUrl, MethodStep, UrlStep, VersionStep, HeaderLineStep, Number, NumberPart, VersionAt,
         BeforeSpace, AfterUrl;
    assert b[..p + 1][p] == b[p];
  }

  lemma NumberBreaks(b: string, lo: nat, p: nat)
    requires p < |b| && (lo == p || Number(b, lo, p))
    ensures Number(b, lo, p + 1) <==> Decimal(b[p]) && (lo == p || Value(b, lo, p + 1) <= 1)
  {
    if Decimal(b[p]) {
      NumberGrows(b, lo, p);
    }
  }

  lemma RejectBreaksVersion(b: string, p: nat, ar: Archive, k: Cuts)
    requires p < |b| && At(b, p, ar, k) && WellFormed(p, ar)
    requires InVersion(ar.state)
    requires Step(RequestLine, b[..p + 1], ar).verdict == Reject
    ensures Breaks(b, k, PartOf(ar.state), p)
  {
    hide WellFormed, MethodStep, UrlStep, ProtocolStep, HeaderLineStep, Value, Number, BeforeVersion, AfterUrl,
         ProtocolPrefix, Blanks, BeforeSpace, PushDigit;
    assert b[..p + 1][p] == b[p];
    var lo := if PartOf(ar.state) == 5 then k.h + 5 else k.d + 1;
    if ar.state != RlCrAfterVersion {
      NumberBreaks(b, lo, p);
      if Decimal(b[p]) {
        NumberGrows(b, lo, p);
      }
    }
  }

  lemma RejectBreaks(b: string, p: nat, ar: Archive, k: Cuts)
    requires p < |b| && At(b, p, ar, k) && WellFormed(p, ar)
    requires Step(RequestLine, b[..p + 1], ar).verdict == Reject
    ensures Breaks(b, k, PartOf(ar.state), p)
  {
    hide Breaks, RequestLineStep;
    if InMethod(ar.state) || ar.state == RlUrl {
      RejectBreaksFront(b, p, ar, k);
    } else if InProtocol(ar.state) {
      RejectBreaksProtocol(b, p, ar, k);
    } else {
      RejectBreaksVersion(b, p, ar, k);
    }
  }

  lemma StepKeepsAt(b: string, p: nat, ar: Archive, k: Cuts)
    requires p < |b| && At(b, p, ar, k)
    ensures WellFormed(p, ar)
    ensures Keeps(b, p, ar, k)
  {
    hide SplitUrl, ParseMethod, MethodNamed, IsMethod, RequestLineStep, Value, LineAt, Keeps;
    AtIsWellFormed(b, p, ar, k);
    if InMethod(ar.state) {
      MethodKeeps(b, p, ar, k);
    } else if ar.state == RlUrl {
      UrlKeeps(b, p, ar, k);
    } else if InProtocol(ar.state) {
      ProtocolKeeps(b, p, ar, k);
    } else if ar.state == RlVersionSlash {
      FirstMajorKeeps(b, p, ar, k);
    } else if ar.state == RlVersionMajor {
      MajorKeeps(b, p, ar, k);
    } else if ar.state == RlCrAfterVersion {
      EndKeeps(b, p, ar, k);
    } else if ar.state == RlVersionDot {
      FirstMinorKeeps(b, p, ar, k);
    } else {
      MinorKeeps(b, p, ar, k);
    }
  }

  // ---------- soundness ----------

  lemma {:induction false} RunIsSound(b: string, p: nat, ar: Archive, k: Cuts) returns (line: Cuts)
    requires p <= |b| && At(b, p, ar, k)
    ensures WellFormed(p, ar)
    ensures Run(RequestLine, b, p, ar).status == Ok ==>
              LineAt(b, line) && Run(RequestLine, b, p, ar) == Parsed(Ok, LineArchive(b, line))
    ensures Run(RequestLine, b, p, ar).status == Again ==> exists k', j :: OpenAt(b, k', j)
    ensures Run(RequestLine, b, p, ar).status == InvalidRequest ==> exists k', j, q :: BrokenAt(b, k', j, q)
    ensures Run(RequestLine, b, p, ar).status != CrlfLine
    decreases |b| - p
  {
    hide At, LineAt, LineArchive, RequestLineStep, Done, Doing, Breaks, PartOf, Settle;
    line := k;
    AtIsWellFormed(b, p, ar, k);
    AtIsOpen(b, p, ar, k);
    if p < |b| {
      StepKeepsAt(b, p, ar, k);
      var s := Step(RequestLine, b[..p + 1], ar);
      if s.verdict == More {
        line := RunIsSound(b, p + 1, s.ar, Settle(ar.state, s.ar.state, p, k));
      } else if s.verdict == Reject {
        RejectBreaks(b, p, ar, k);
        assert BrokenAt(b, k, PartOf(ar.state), p);
      }
    } else {
      assert OpenAt(b, k, PartOf(ar.state));
    }
  }

  // ---------- completeness ----------

  /** Where in the line the machine is after p bytes, by its state. */
  ghost predicate InPhase(p: nat, st: State, k: Cuts) {
    match st
    case RlBegin => p == 0
    case RlMethod => 0 < p <= k.m
    case RlSpBeforeUrl => k.m < p <= k.u
    case RlUrl => k.u < p <= k.e
    case RlSpBeforeVersion => k.e < p <= k.h
    case RlVersionH => p == k.h + 1
    case RlVersionHT => p == k.h + 2
    case RlVersionHTT => p == k.h + 3
    case RlVersionHTTP => p == k.h + 4
    case RlVersionSlash => p == k.h + 5
    case RlVersionMajor => k.h + 5 < p <= k.d
    case RlVersionDot => p == k.d + 1
    case RlVersionMinor => k.d + 1 < p <= k.r
    case RlCrAfterVersion => p == k.r + 1
    case _ => false
  }

  /** On a line of the grammar no byte is rejected, every cut is settled where the line has it, and LF ends it. */
  ghost predicate Follows(b: string, p: nat, ar: Archive, k: Cuts)
    requires p < |b| && WellFormed(p, ar)
  {
    var s := Step(RequestLine, b[..p + 1], ar);
    && s.verdict != Reject
    && (s.verdict == More ==> p <= k.r && InPhase(p + 1, s.ar.state, k) && Settle(ar.state, s.ar.state, p, k) == k)
    && (s.verdict == Complete ==> p == k.r + 1)
  }

  lemma MethodLetters(s: string)
    requires IsMethod(s)
    ensures |s| > 0 && forall i | 0 <= i < |s| :: Letter(s[i])
  {
  }

  lemma MethodFollows(b: string, p: nat, ar: Archive, k: Cuts)
    requires LineAt(b, k) && p <= k.r + 1 && At(b, p, ar, k) && InPhase(p, ar.state, k) && WellFormed(p, ar)
    requires InMethod(ar.state)
    ensures Follows(b, p, ar, k)
  {
    hide SplitUrl, ParseMethod, MethodNamed, IsMethod, UrlStep, ProtocolStep, VersionStep, HeaderLineStep, Value,
         NumberPart, Number, ProtocolPrefix, VersionAt, ProtocolAt, AfterUrl, Letter;
    assert b[..p + 1][p] == b[p];
    MethodLetters(b[..k.m]);
    if p < k.m {
      assert b[..k.m][p] == b[p];
    }
    if ar.state == RlMethod {
      assert b[..p + 1][0..p] == b[..p];
      MethodIsTheNamed(b[..p]);
    }
  }

  lemma UrlFollows(b: string, p: nat, ar: Archive, k: Cuts)
    requires LineAt(b, k) && p <= k.r + 1 && At(b, p, ar, k) && InPhase(p, ar.state, k) && WellFormed(p, ar)
    requires ar.state == RlUrl
    ensures Follows(b, p, ar, k)
  {
    hide SplitUrl, ParseMethod, MethodNamed, IsMethod, MethodStep, ProtocolStep, VersionStep, HeaderLineStep, Value,
         NumberPart;
    assert b[..p + 1][p] == b[p];
    assert b[..p + 1][k.u] == b[k.u];
  }

  lemma ProtocolFollows(b: string, p: nat, ar: Archive, k: Cuts)
    requires LineAt(b, k) && p <= k.r + 1 && At(b, p, ar, k) && InPhase(p, ar.state, k) && WellFormed(p, ar)
    requires InProtocol(ar.state)
    ensures Follows(b, p, ar, k)
  {
    hide SplitUrl, ParseMethod, MethodNamed, IsMethod, MethodStep, UrlStep, VersionStep, HeaderLineStep, Value,
         BeforeSpace, AfterUrl, Number;
    assert b[..p + 1][p] == b[p];
  }

  lemma MajorFollows(b: string, p: nat, ar: Archive, k: Cuts)
    requires LineAt(b, k) && p <= k.r + 1 && At(b, p, ar, k) && InPhase(p, ar.state, k) && WellFormed(p, ar)
    requires ar.state == RlVersionSlash || ar.state == RlVersionMajor
    ensures Follows(b, p, ar, k)
  {
    hide Letter, Decimal, DigitValue, SplitUrl, ParseMethod, MethodNamed, IsMethod, MethodStep, UrlStep, ProtocolStep,
         HeaderLineStep, Value, BeforeVersion, AfterUrl;
    assert b[..p + 1][p] == b[p];
    if ar.state == RlVersionMajor && p < k.d {
      NumberGrows(b, k.h + 5, p);
    }
  }

  lemma MinorFollows(b: string, p: nat, ar: Archive, k: Cuts)
    requires LineAt(b, k) && p <= k.r + 1 && At(b, p, ar, k) && InPhase(p, ar.state, k) && WellFormed(p, ar)
    requires ar.state == RlVersionDot || ar.state == RlVersionMinor || ar.state == RlCrAfterVersion
    ensures Follows(b, p, ar, k)
  {
    hide Letter, Decimal, DigitValue, SplitUrl, ParseMethod, MethodNamed, IsMethod, MethodStep, UrlStep, ProtocolStep,
         HeaderLineStep, Value, BeforeVersion, AfterUrl;
    assert b[..p + 1][p] == b[p];
    if ar.state == RlVersionMinor && p < k.r {
      NumberGrows(b, k.d + 1, p);
    }
  }

  lemma {:induction false} RunIsComplete(b: string, p: nat, ar: Archive, k: Cuts)
    requires LineAt(b, k) && p <= k.r + 1 && At(b, p, ar, k) && InPhase(p, ar.state, k)
    ensures WellFormed(p, ar)
    ensures Run(RequestLine, b, p, ar) == Parsed(Ok, LineArchive(b, k))
    decreases |b| - p
  {
    hide At, BeforeVersion, NumberPart, LineArchive, RequestLineStep, WellFormed, Settle;
    AtIsWellFormed(b, p, ar, k);
    StepKeepsAt(b, p, ar, k);
    if InMethod(ar.state) {
      MethodFollows(b, p, ar, k);
    } else if ar.state == RlUrl {
      UrlFollows(b, p, ar, k);
    } else if InProtocol(ar.state) {
      ProtocolFollows(b, p, ar, k);
    } else if ar.state == RlVersionSlash || ar.state == RlVersionMajor {
      MajorFollows(b, p, ar, k);
    } else {
      MinorFollows(b, p, ar, k);
    }
    var s := Step(RequestLine, b[..p + 1], ar);
    if s.verdict == More {
      RunIsComplete(b, p + 1, s.ar, k);
    }
  }

  // ---------- main results ----------

  /** The line behind an OK. */
  lemma OkMeansLine(b: string) returns (k: Cuts)
    requires Parse(RequestLine, b, INIT).status == Ok
    ensures LineAt(b, k) && Parse(RequestLine, b, INIT) == Parsed(Ok, LineArchive(b, k))
  {
    k := RunIsSound(b, 0, INIT, Cuts(0, 0, 0, 0, 0, 0));
  }

  /** parse_request_line answers OK exactly on inputs that begin with a request line. */
  lemma AcceptsExactlyTheGrammar(b: string)
    ensures Parse(RequestLine, b, INIT).status == Ok <==> exists k :: LineAt(b, k)
  {
    var line := RunIsSound(b, 0, INIT, Cuts(0, 0, 0, 0, 0, 0));
    if k :| LineAt(b, k) {
      RunIsComplete(b, 0, INIT, k);
    }
  }

  /** What it finds is what the grammar says; two cuts of one input cannot differ in it. */
  lemma FindsThePartsOfTheLine(b: string, k: Cuts)
    requires LineAt(b, k)
    ensures Parse(RequestLine, b, INIT) == Parsed(Ok, LineArchive(b, k))
  {
    RunIsComplete(b, 0, INIT, k);
  }

  /**
   * A version number that is accepted has one significant digit, so the products formed on the way stay below 100
   * and the 16-bit fields never wrap.
   */
  lemma NumberIsOneDigit(b: string, lo: nat, hi: nat)
    requires Number(b, lo, hi)
    ensures Value(b, lo, hi) <= 9
    ensures Value(b, lo, hi) > 1 ==> hi == lo + 1
  {
    if hi == lo + 1 {
      assert Value(b, lo, hi) == Value(b, lo, lo) * 10 + DigitValue(b[lo]);
    }
  }

  /** One number cannot end in two places: the byte after it is not a digit. */
  lemma NumberEndIsUnique(b: string, lo: nat, hi: nat, hi': nat, stop: char)
    requires NumberPart(b, lo, hi, stop) && NumberPart(b, lo, hi', stop) && !Decimal(stop)
    ensures hi == hi'
  {
  }

  lemma MethodEndIsUnique(b: string, m: nat, m': nat)
    requires MethodPart(b, m) && MethodPart(b, m')
    ensures m == m'
  {
    MethodIsLetters(b, m);
    MethodIsLetters(b, m');
  }

  lemma MethodIsLetters(b: string, m: nat)
    requires MethodPart(b, m)
    ensures 0 < m && forall i | 0 <= i < m :: Letter(b[i])
  {
    MethodLetters(b[..m]);
    hide IsMethod, Letter;
    assert forall i | 0 <= i < m :: b[..m][i] == b[i];
  }

  // ---------- a line is whole, or open, or broken ----------

  /** The cuts that parts before j have settled. */
  ghost predicate SameCuts(k: Cuts, k': Cuts, j: nat) {
    && (1 <= j ==> k.m == k'.m)
    && (2 <= j ==> k.u == k'.u)
    && (3 <= j ==> k.e == k'.e)
    && (4 <= j ==> k.h == k'.h)
    && (6 <= j ==> k.d == k'.d)
    && (7 <= j ==> k.r == k'.r)
  }

  lemma DoneMeet(b: string, k: Cuts, k': Cuts, j: nat)
    requires Done(b, k, j) && Done(b, k', j)
    ensures SameCuts(k, k', j)
  {
    hide MethodPart, NumberPart;
    if 1 <= j {
      MethodEndIsUnique(b, k.m, k'.m);
    }
    if 6 <= j {
      NumberEndIsUnique(b, k.h + 5, k.d, k'.d, '.');
    }
    if 7 <= j {
      NumberEndIsUnique(b, k.d + 1, k.r, k'.r, '\r');
    }
  }

  lemma DoneBefore(b: string, k: Cuts, j: nat, j': nat)
    requires Done(b, k, j) && j' <= j
    ensures Done(b, k, j')
  {
    hide MethodPart, NumberPart, UrlPart, Blanks, ProtocolPrefix;
  }

  lemma LineIsDone(b: string, k: Cuts)
    ensures LineAt(b, k) ==> Done(b, k, 7) && k.r + 1 < |b| && b[k.r + 1] == '\n'
  {
    hide MethodPart, NumberPart;
  }

  /** A number is one as far as it goes. */
  lemma NumberFront(b: string, lo: nat, hi: nat, p: nat)
    requires Number(b, lo, hi) && lo < p <= hi
    ensures Number(b, lo, p)
  {
    hide Value;
  }

  /** A number that breaks at q ends in no stop. */
  lemma BrokenNumber(b: string, lo: nat, q: nat, hi: nat, stop: char)
    requires q < |b| && (q == lo || Number(b, lo, q)) && !Number(b, lo, q + 1) && (b[q] == stop ==> q == lo)
    requires !Decimal(stop)
    ensures !NumberPart(b, lo, hi, stop) && !(hi == |b| && Number(b, lo, hi))
  {
    if Number(b, lo, hi) && q < hi {
      NumberFront(b, lo, hi, q + 1);
    }
    hide Value;
  }

  /** A part that is broken is not there in full. */
  lemma BrokenIsNotDone(b: string, k: Cuts, j: nat, q: nat, k': Cuts)
    requires BrokenAt(b, k, j, q)
    ensures j < 7 ==> !Done(b, k', j + 1)
    ensures !LineAt(b, k')
  {
    hide Done, LineAt;
    LineIsDone(b, k');
    PartsEnd(b, k, j);
    if (j < 7 && Done(b, k', j + 1)) || LineAt(b, k') {
      DoneBefore(b, k', if LineAt(b, k') then 7 else j + 1, j);
      DoneMeet(b, k, k', j);
      if j < 7 {
        DoneBefore(b, k', if LineAt(b, k') then 7 else j + 1, j + 1);
        if j <= 4 {
          FrontBreaksOnce(b, k, j, q, k');
        } else {
          NumberBreaksOnce(b, k, j, q, k');
        }
      }
    }
  }

  lemma FrontBreaksOnce(b: string, k: Cuts, j: nat, q: nat, k': Cuts)
    requires j <= 4 && Doing(b, k, j, q) && Breaks(b, k, j, q) && SameCuts(k, k', j)
    ensures !Done(b, k', j + 1)
  {
    hide IsMethod, Number, NumberPart, Letter;
    if Done(b, k', j + 1) {
      if j == 0 {
        MethodIsLetters(b, k'.m);
        hide MethodPart;
      }
    }
  }

  lemma NumberBreaksOnce(b: string, k: Cuts, j: nat, q: nat, k': Cuts)
    requires 5 <= j <= 6 && Doing(b, k, j, q) && Breaks(b, k, j, q) && SameCuts(k, k', j)
    ensures !Done(b, k', j + 1)
  {
    if j == 5 {
      BrokenNumber(b, k.h + 5, q, k'.d, '.');
    } else {
      BrokenNumber(b, k.d + 1, q, k'.r, '\r');
    }
    hide MethodPart, Number, UrlPart, Blanks, ProtocolPrefix, NumberPart;
  }

  /** A part that is there in full does not reach to the end of the bytes. */
  lemma DoneIsNotDoing(b: string, k: Cuts, j: nat, k': Cuts)
    requires Done(b, k, j + 1) && SameCuts(k, k', j) && j < 7
    ensures !Doing(b, k', j, |b|)
  {
    hide Value, IsMethod, Letter;
  }

  lemma BrokenIsNotDoing(b: string, k: Cuts, j: nat, q: nat, k': Cuts)
    requires Doing(b, k, j, q) && Breaks(b, k, j, q) && SameCuts(k, k', j)
    ensures !Doing(b, k', j, |b|)
  {
    if j == 5 || j == 6 {
      BrokenNumberIsNotDoing(b, k, j, q, k');
    }
    hide Number, IsMethod, Letter;
  }

  lemma BrokenNumberIsNotDoing(b: string, k: Cuts, j: nat, q: nat, k': Cuts)
    requires 5 <= j <= 6 && Doing(b, k, j, q) && Breaks(b, k, j, q) && SameCuts(k, k', j)
    ensures !Doing(b, k', j, |b|)
  {
    if j == 5 {
      BrokenNumber(b, k.h + 5, q, |b|, '.');
    } else {
      BrokenNumber(b, k.d + 1, q, |b|, '\r');
    }
    hide Number, UrlChars, Blanks, ProtocolPrefix;
  }

  lemma BrokenIsNotOpen(b: string, k: Cuts, j: nat, q: nat, k': Cuts, j': nat)
    requires BrokenAt(b, k, j, q)
    ensures !OpenAt(b, k', j')
  {
    hide Done, Doing, Breaks, SameCuts;
    if OpenAt(b, k', j') {
      if j < j' {
        PartsEnd(b, k', j');
        DoneBefore(b, k', j', j + 1);
        BrokenIsNotDone(b, k, j, q, k');
      } else {
        DoneBefore(b, k, j, j');
        DoneMeet(b, k, k', j');
        if j' == j {
          BrokenIsNotDoing(b, k, j, q, k');
        } else {
          DoneBefore(b, k, j, j' + 1);
          PartsEnd(b, k, j);
          DoneIsNotDoing(b, k, j', k');
        }
      }
    }
  }

  lemma PartsEnd(b: string, k: Cuts, j: nat)
    ensures forall p | Doing(b, k, j, p) :: j <= 7
  {
  }

  lemma LineIsNotOpen(b: string, k: Cuts, k': Cuts, j': nat)
    requires LineAt(b, k)
    ensures !OpenAt(b, k', j')
  {
    LineIsDone(b, k);
    hide Done, LineAt;
    if OpenAt(b, k', j') {
      PartsEnd(b, k', j');
      DoneBefore(b, k, 7, j');
      DoneMeet(b, k, k', j');
      if j' < 7 {
        DoneBefore(b, k, 7, j' + 1);
        DoneIsNotDoing(b, k, j', k');
      }
    }
  }

  /**
   * parse_request_line answers INVALID exactly when some byte breaks the line, and asks for more exactly on an open
   * one.
   */
  lemma InvalidExactlyWhen(b: string)
    ensures Parse(RequestLine, b, INIT).status == InvalidRequest <==> exists k, j, q :: BrokenAt(b, k, j, q)
    ensures Parse(RequestLine, b, INIT).status == Again <==> exists k, j :: OpenAt(b, k, j)
    ensures Parse(RequestLine, b, INIT).status != CrlfLine
  {
    var line := RunIsSound(b, 0, INIT, Cuts(0, 0, 0, 0, 0, 0));
    hide LineAt, OpenAt, BrokenAt, LineArchive, Run, At;
    if k, j, q :| BrokenAt(b, k, j, q) {
      BrokenIsNotDone(b, k, j, q, line);
      forall k', j'
        ensures !OpenAt(b, k', j')
      {
        BrokenIsNotOpen(b, k, j, q, k', j');
      }
    } else if k, j :| OpenAt(b, k, j) {
      if LineAt(b, line) {
        LineIsNotOpen(b, line, k, j);
      }
    }
  }

  /** The grammar is unambiguous. */
  lemma CutsAreUnique(b: string, k: Cuts, k': Cuts)
    requires LineAt(b, k) && LineAt(b, k')
    ensures k == k'
  {
    hide MethodPart, NumberPart;
    MethodEndIsUnique(b, k.m, k'.m);
    assert k.u == k'.u;
    assert k.e == k'.e;
    assert k.h == k'.h;
    NumberEndIsUnique(b, k.h + 5, k.d, k'.d, '.');
    NumberEndIsUnique(b, k.d + 1, k.r, k'.r, '\r');
  }
}
