// The language that parse_header_line accepts: its reading of message headers, section 4.2 of RFC 2616,
// stated on positions of the input, for one line and for a whole header block.
module HeaderGrammar {
  import opened Alphabet
  import opened HttpParser
  import opened ChunkIndependence

  /**
   * A header line from s: blanks [s, n), name [n, c), ':', blanks [c+1, v), value [v, w), CR LF.  A blank line: blanks
   * [s, w), CR LF.
   */
  datatype Cuts = Cuts(n: nat, c: nat, v: nat, w: nat)

  // ---------- the grammar ----------

  ghost predicate Blanks(b: string, lo: int, hi: int) {
    0 <= lo <= hi <= |b| && forall i | lo <= i < hi :: Blank(b[i])
  }

  ghost predicate NameChars(b: string, lo: int, hi: int) {
    0 <= lo < hi <= |b| && forall i | lo <= i < hi :: NameChar(b[i])
  }

  ghost predicate ValueChars(b: string, lo: int, hi: int) {
    0 <= lo < hi <= |b| && !Blank(b[lo]) && forall i | lo <= i < hi :: !LineEnd(b[i])
  }

  ghost predicate NamePart(b: string, s: nat, k: Cuts) {
    Blanks(b, s, k.n) && NameChars(b, k.n, k.c) && k.c < |b| && b[k.c] == ':'
  }

  ghost predicate ValuePart(b: string, k: Cuts) {
    Blanks(b, k.c + 1, k.v) && ValueChars(b, k.v, k.w) && k.w < |b| && b[k.w] == '\r'
  }

  ghost predicate HeaderAt(b: string, s: nat, k: Cuts) {
    NamePart(b, s, k) && ValuePart(b, k) && k.w + 1 < |b| && b[k.w + 1] == '\n'
  }

  /** A header line whose value runs into a LF without a CR. */
  ghost predicate BareLfAt(b: string, s: nat, k: Cuts) {
    NamePart(b, s, k) && Blanks(b, k.c + 1, k.v) && ValueChars(b, k.v, k.w) && k.w < |b| && b[k.w] == '\n'
  }

  ghost predicate BlankLineAt(b: string, s: nat, w: nat) {
    Blanks(b, s, w) && w + 1 < |b| && b[w] == '\r' && b[w + 1] == '\n'
  }

  /** The byte at q breaks the line before its colon. */
  ghost predicate BrokenEarly(b: string, s: nat, k: Cuts, q: nat) {
    && q < |b|
    && (|| (Blanks(b, s, q) && !Blank(b[q]) && !NameChar(b[q]) && b[q] != '\r')
        || (Blanks(b, s, k.n) && q == k.n + 1 && b[k.n] == '\r' && b[q] != '\n')
        || (Blanks(b, s, k.n) && NameChars(b, k.n, q) && !NameChar(b[q]) && b[q] != ':'))
  }

  /**
   * The byte at q is one that neither a header line nor a blank line from s, nor a value with a bare LF, can go on
   * with.
   */
  ghost predicate BrokenAt(b: string, s: nat, k: Cuts, q: nat) {
    || BrokenEarly(b, s, k, q)
    || (NamePart(b, s, k) && Blanks(b, k.c + 1, q) && q < |b| && LineEnd(b[q]))
    || (NamePart(b, s, k) && ValuePart(b, k) && q == k.w + 1 && q < |b| && b[q] != '\n')
  }

  /** What the parser must have found after a header line. */
  function HeaderArchive(a: Archive, k: Cuts): Archive {
    a.(state := HdBegin, nextParsePos := k.w + 2, numHeaders := a.numHeaders + 1, isCrlfLine := false,
    headerLineBegin := k.n, headerColonPos := k.c, headerValBegin := k.v, headerValEnd := k.w,
    headerName := Slice(k.n, k.c - k.n), headerValue := Slice(k.v, k.w - k.v))
  }

  /** After the blank line: the two header slices are filled again from the stored positions. */
  function BlankLineArchive(a: Archive, w: nat): Archive {
    a.(state := HdBegin, nextParsePos := w + 2, numHeaders := a.numHeaders + 1, isCrlfLine := true,
    headerName := Slice(a.headerLineBegin, a.headerColonPos - a.headerLineBegin),
    headerValue := Slice(a.headerValBegin, a.headerValEnd - a.headerValBegin))
  }

  // ---------- the invariant of the machine ----------

  /** The machine started a line at s in a; after p bytes it is in `ar` and the parts left behind are cut at k. */
  ghost predicate At(b: string, s: nat, a: Archive, p: nat, ar: Archive, k: Cuts) {
    && s <= p <= |b| && a.state == HdBegin && WellFormed(s, a)
    && var named := a.(state := ar.state, headerLineBegin := k.n, isCrlfLine := false);
       match ar.state
       case HdBegin => Blanks(b, s, p) && ar == a
       case HdName => Blanks(b, s, k.n) && NameChars(b, k.n, p) && ar == named
       case HdColon => NamePart(b, s, k) && p == k.c + 1 && ar == named.(headerColonPos := k.c)
       case HdSpBeforeVal => NamePart(b, s, k) && k.c + 1 < p && Blanks(b, k.c + 1, p)
         && ar == named.(headerColonPos := k.c)
       case HdVal =>
         && NamePart(b, s, k) && Blanks(b, k.c + 1, k.v) && ValueChars(b, k.v, p)
         && ar == named.(headerColonPos := k.c, headerValBegin := k.v)
       case HdCrAfterVal =>
         p == k.w + 1 &&
         if ar.isCrlfLine then Blanks(b, s, k.w) && b[k.w] == '\r'
           && ar == a.(state := HdCrAfterVal, isCrlfLine := true)
         else NamePart(b, s, k) && ValuePart(b, k)
              && ar == named.(headerColonPos := k.c, headerValBegin := k.v, headerValEnd := k.w)
       case HdLfAfterVal => BareLfAt(b, s, k) && k.w < p && ar == named.(headerColonPos := k.c, headerValBegin := k.v)
       case _ => false
  }

  ghost function Settle(before: State, after: State, p: nat, k: Cuts): Cuts {
    if before == HdBegin && after == HdName then k.(n := p)
    else if before == HdName && after == HdColon then k.(c := p)
    else if before != HdVal && after == HdVal then k.(v := p)
    else if before != after && (after == HdCrAfterVal || after == HdLfAfterVal) then k.(w := p)
    else k
  }

  lemma AtIsWellFormed(b: string, s: nat, a: Archive, p: nat, ar: Archive, k: Cuts)
    requires At(b, s, a, p, ar, k)
    ensures WellFormed(p, ar)
    ensures ar.state == HdLfAfterVal ==> BareLfAt(b, s, k)
    ensures ar.nextParsePos == a.nextParsePos
  {
  }

  ghost predicate Keeps(b: string, s: nat, a: Archive, p: nat, ar: Archive, k: Cuts)
    requires p < |b| && WellFormed(p, ar)
  {
    var t := HeaderLineStep(p, b[p], ar);
    && (t.verdict == More ==> At(b, s, a, p + 1, t.ar, Settle(ar.state, t.ar.state, p, k)))
    && (t.verdict == Complete ==>
          && p == k.w + 1
          && if ar.isCrlfLine then BlankLineAt(b, s, k.w)
               && Finish(HeaderLine, p, t.ar) == Parsed(CrlfLine, BlankLineArchive(a, k.w))
             else HeaderAt(b, s, k) && Finish(HeaderLine, p, t.ar) == Parsed(Ok, HeaderArchive(a, k)))
    && (t.verdict == Reject ==>
          BrokenAt(b, s, if ar.isCrlfLine && ar.state == HdCrAfterVal then k.(n := k.w) else k, p))
  }

  lemma BeginKeeps(b: string, s: nat, a: Archive, p: nat, ar: Archive, k: Cuts)
    requires p < |b| && At(b, s, a, p, ar, k) && WellFormed(p, ar)
    requires ar.state == HdBegin
    ensures Keeps(b, s, a, p, ar, k)
  {
    hide HeaderAt, BlankLineAt, HeaderArchive, BlankLineArchive, WellFormed;
  }

  lemma NameKeeps(b: string, s: nat, a: Archive, p: nat, ar: Archive, k: Cuts)
    requires p < |b| && At(b, s, a, p, ar, k) && WellFormed(p, ar)
    requires ar.state == HdName || ar.state == HdColon
    ensures Keeps(b, s, a, p, ar, k)
  {
    hide HeaderAt, BlankLineAt, HeaderArchive, BlankLineArchive, WellFormed;
  }

  lemma ValueKeeps(b: string, s: nat, a: Archive, p: nat, ar: Archive, k: Cuts)
    requires p < |b| && At(b, s, a, p, ar, k) && WellFormed(p, ar)
    requires ar.state == HdSpBeforeVal || ar.state == HdVal
    ensures Keeps(b, s, a, p, ar, k)
  {
    hide HeaderAt, BlankLineAt, HeaderArchive, BlankLineArchive, WellFormed;
  }

  lemma EndKeeps(b: string, s: nat, a: Archive, p: nat, ar: Archive, k: Cuts)
    requires p < |b| && At(b, s, a, p, ar, k) && WellFormed(p, ar)
    requires ar.state == HdCrAfterVal || ar.state == HdLfAfterVal
    ensures Keeps(b, s, a, p, ar, k)
  {
    hide WellFormed;
  }

  lemma StepKeepsAt(b: string, s: nat, a: Archive, p: nat, ar: Archive, k: Cuts)
    requires p < |b| && At(b, s, a, p, ar, k)
    ensures WellFormed(p, ar)
    ensures Keeps(b, s, a, p, ar, k)
  {
    AtIsWellFormed(b, s, a, p, ar, k);
    hide Keeps, WellFormed;
    match ar.state
    case HdBegin => BeginKeeps(b, s, a, p, ar, k);
    case HdName => NameKeeps(b, s, a, p, ar, k);
    case HdColon => NameKeeps(b, s, a, p, ar, k);
    case HdSpBeforeVal => ValueKeeps(b, s, a, p, ar, k);
    case HdVal => ValueKeeps(b, s, a, p, ar, k);
    case _ => EndKeeps(b, s, a, p, ar, k);
  }

  // ---------- soundness ----------

  /** What the three kinds of answer of parse_header_line mean. */
  ghost predicate Answers(b: string, s: nat, a: Archive, r: Parsed, k: Cuts) {
    match r.status
    case Ok => HeaderAt(b, s, k) && r.ar == HeaderArchive(a, k)
    case CrlfLine => BlankLineAt(b, s, k.w) && r.ar == BlankLineArchive(a, k.w)
    case Again =>
      (r.ar.state == HdLfAfterVal ==> BareLfAt(b, s, k)) && At(b, s, a, |b|, r.ar.(nextParsePos := a.nextParsePos), k)
    case InvalidRequest => exists k', q :: BrokenAt(b, s, k', q)
  }

  lemma {:induction false} RunIsSound(b: string, s: nat, a: Archive, p: nat, ar: Archive, k: Cuts) returns (line: Cuts)
    requires p <= |b| && At(b, s, a, p, ar, k)
    ensures WellFormed(p, ar)
    ensures Answers(b, s, a, Run(HeaderLine, b, p, ar), line)
    decreases |b| - p
  {
    line := k;
    hide WellFormed, At, HeaderLineStep, HeaderAt, BlankLineAt, BareLfAt, BrokenAt, Settle, HeaderArchive,
         BlankLineArchive;
    AtIsWellFormed(b, s, a, p, ar, k);
    if p < |b| {
      StepKeepsAt(b, s, a, p, ar, k);
      assert b[..p + 1][p] == b[p];
      var t := HeaderLineStep(p, b[p], ar);
      if t.verdict == More {
        line := RunIsSound(b, s, a, p + 1, t.ar, Settle(ar.state, t.ar.state, p, k));
      }
    } else {
      assert ar.(nextParsePos := p).(nextParsePos := a.nextParsePos) == ar;
    }
  }

  // ---------- completeness ----------

  /** Where in a header line the machine is after p bytes, by its state. */
  ghost predicate InPhase(p: nat, ar: Archive, k: Cuts) {
    match ar.state
    case HdBegin => p <= k.n
    case HdName => k.n < p <= k.c
    case HdColon => p == k.c + 1
    case HdSpBeforeVal => k.c + 1 < p <= k.v
    case HdVal => k.v < p <= k.w
    case HdCrAfterVal => p == k.w + 1 && !ar.isCrlfLine
    case _ => false
  }

  /** The byte at p takes the machine on along the line. */
  ghost predicate Follows(b: string, p: nat, ar: Archive, k: Cuts)
    requires p < |b| && WellFormed(p, ar)
  {
    var t := HeaderLineStep(p, b[p], ar);
    && t.verdict == More && Settle(ar.state, t.ar.state, p, k) == k
    && (InPhase(p + 1, t.ar, k) || (p == k.w && t.ar.state == HdLfAfterVal))
    && (t.ar.state == HdLfAfterVal ==> k.w < |b| && b[k.w] == '\n')
  }

  lemma NameFollows(b: string, s: nat, a: Archive, p: nat, ar: Archive, k: Cuts)
    requires NamePart(b, s, k) && k.c < k.v < k.w && p < |b| && WellFormed(p, ar)
    requires At(b, s, a, p, ar, k) && InPhase(p, ar, k) && (ar.state == HdBegin || ar.state == HdName)
    ensures Follows(b, p, ar, k)
  {
    hide BareLfAt, WellFormed;
  }

  lemma ValueFollows(b: string, s: nat, a: Archive, p: nat, ar: Archive, k: Cuts)
    requires Blanks(b, k.c + 1, k.v) && ValueChars(b, k.v, k.w) && k.w < |b| && LineEnd(b[k.w]) && WellFormed(p, ar)
    requires p <= k.w && At(b, s, a, p, ar, k) && InPhase(p, ar, k) && ar.state != HdBegin && ar.state != HdName
    ensures Follows(b, p, ar, k)
  {
    hide BareLfAt, NamePart, WellFormed;
  }

  lemma BodyFollows(b: string, s: nat, a: Archive, p: nat, ar: Archive, k: Cuts)
    requires HeaderAt(b, s, k) || BareLfAt(b, s, k)
    requires p <= k.w && At(b, s, a, p, ar, k) && InPhase(p, ar, k)
    ensures WellFormed(p, ar) && p < |b|
    ensures Follows(b, p, ar, k)
  {
    hide At, InPhase, Follows, WellFormed;
    AtIsWellFormed(b, s, a, p, ar, k);
    if ar.state == HdBegin || ar.state == HdName {
      NameFollows(b, s, a, p, ar, k);
    } else {
      ValueFollows(b, s, a, p, ar, k);
    }
  }

  lemma EndFollows(b: string, s: nat, a: Archive, p: nat, ar: Archive, k: Cuts)
    requires HeaderAt(b, s, k) && p == k.w + 1 && At(b, s, a, p, ar, k) && InPhase(p, ar, k)
    ensures p < |b| && !ar.isCrlfLine && HeaderLineStep(p, b[p], ar).verdict == Complete
  {
  }

  /** One round of the parser loop. */
  lemma RunSteps(b: string, p: nat, ar: Archive)
    requires p < |b| && WellFormed(p, ar)
    ensures var t := HeaderLineStep(p, b[p], ar);
            && (t.verdict == More ==>
                  WellFormed(p + 1, t.ar) && Run(HeaderLine, b, p, ar) == Run(HeaderLine, b, p + 1, t.ar))
            && (t.verdict == Complete ==> Run(HeaderLine, b, p, ar) == Finish(HeaderLine, p, t.ar))
  {
    hide HeaderLineStep, WellFormed, Finish;
    assert b[..p + 1][p] == b[p];
  }

  /** Inside the line the machine goes one byte on and is where the line has it. */
  lemma LineGoesOn(b: string, s: nat, a: Archive, p: nat, ar: Archive, k: Cuts)
    requires HeaderAt(b, s, k) || BareLfAt(b, s, k)
    requires p <= k.w && At(b, s, a, p, ar, k) && InPhase(p, ar, k)
    requires p < |b| && WellFormed(p, ar)
    ensures var t := HeaderLineStep(p, b[p], ar);
            && At(b, s, a, p + 1, t.ar, k) && WellFormed(p + 1, t.ar)
            && Run(HeaderLine, b, p, ar) == Run(HeaderLine, b, p + 1, t.ar)
            && (InPhase(p + 1, t.ar, k) || (p == k.w && b[k.w] == '\n'))
  {
    hide HeaderLineStep, Run, Finish, At, HeaderAt, BareLfAt, BlankLineAt, BlankLineArchive, HeaderArchive, WellFormed,
         InPhase, Settle;
    StepKeepsAt(b, s, a, p, ar, k);
    RunSteps(b, p, ar);
    BodyFollows(b, s, a, p, ar, k);
  }

  lemma LineEnds(b: string, s: nat, a: Archive, p: nat, ar: Archive, k: Cuts)
    requires HeaderAt(b, s, k) && p == k.w + 1 && At(b, s, a, p, ar, k) && InPhase(p, ar, k)
    requires p < |b| && WellFormed(p, ar)
    ensures Run(HeaderLine, b, p, ar) == Parsed(Ok, HeaderArchive(a, k))
  {
    hide HeaderLineStep, Run, Finish, At, HeaderAt, BareLfAt, BlankLineAt, BlankLineArchive, HeaderArchive, WellFormed,
         InPhase, Settle;
    StepKeepsAt(b, s, a, p, ar, k);
    RunSteps(b, p, ar);
    EndFollows(b, s, a, p, ar, k);
  }

  lemma {:induction false} HeaderIsRead(b: string, s: nat, a: Archive, p: nat, ar: Archive, k: Cuts)
    requires HeaderAt(b, s, k) && p <= k.w + 1 && At(b, s, a, p, ar, k) && InPhase(p, ar, k)
    ensures WellFormed(p, ar)
    ensures Run(HeaderLine, b, p, ar) == Parsed(Ok, HeaderArchive(a, k))
    decreases |b| - p
  {
    hide HeaderLineStep, Run, At, HeaderAt, BareLfAt, HeaderArchive, WellFormed, InPhase;
    InBuffer(b, s, k);
    AtIsWellFormed(b, s, a, p, ar, k);
    if p <= k.w {
      LineGoesOn(b, s, a, p, ar, k);
      HeaderIsRead(b, s, a, p + 1, HeaderLineStep(p, b[p], ar).ar, k);
    } else {
      LineEnds(b, s, a, p, ar, k);
    }
  }

  lemma InBuffer(b: string, s: nat, k: Cuts)
    requires HeaderAt(b, s, k) || BareLfAt(b, s, k)
    ensures k.w < |b|
    ensures HeaderAt(b, s, k) ==> b[k.w] == '\r' && k.w + 1 < |b|
    ensures BareLfAt(b, s, k) ==> b[k.w] == '\n'
  {
  }

  /** A bare LF leaves the machine in the state that has no case. */
  lemma {:induction false} BareLfIsRead(b: string, s: nat, a: Archive, p: nat, ar: Archive, k: Cuts)
    requires BareLfAt(b, s, k) && p <= k.w && At(b, s, a, p, ar, k) && InPhase(p, ar, k)
    ensures WellFormed(p, ar)
    ensures var r := Run(HeaderLine, b, p, ar); r.status == Again && r.ar.state == HdLfAfterVal
    decreases |b| - p
  {
    hide HeaderLineStep, Run, At, HeaderAt, BareLfAt, WellFormed;
    InBuffer(b, s, k);
    AtIsWellFormed(b, s, a, p, ar, k);
    LineGoesOn(b, s, a, p, ar, k);
    var t := HeaderLineStep(p, b[p], ar);
    if p < k.w {
      BareLfIsRead(b, s, a, p + 1, t.ar, k);
    } else {
      LastStepOfBareLf(b, s, a, p, ar, k);
      BareLfNeverAnswers(b, p + 1, t.ar);
    }
  }

  lemma LastStepOfBareLf(b: string, s: nat, a: Archive, p: nat, ar: Archive, k: Cuts)
    requires BareLfAt(b, s, k) && p == k.w && At(b, s, a, p, ar, k) && InPhase(p, ar, k)
    ensures WellFormed(p, ar) && HeaderLineStep(p, b[p], ar).ar.state == HdLfAfterVal
  {
  }

  lemma {:induction false} BlankLineIsRead(b: string, s: nat, a: Archive, p: nat, ar: Archive, w: nat)
    requires BlankLineAt(b, s, w) && s <= p <= w + 1 && WellFormed(s, a) && a.state == HdBegin
    requires ar == if p <= w then a else a.(state := HdCrAfterVal, isCrlfLine := true)
    ensures WellFormed(p, ar)
    ensures Run(HeaderLine, b, p, ar) == Parsed(CrlfLine, BlankLineArchive(a, w))
    decreases |b| - p
  {
    RunSteps(b, p, ar);
    hide Run;
    if p <= w {
      BlankLineIsRead(b, s, a, p + 1, HeaderLineStep(p, b[p], ar).ar, w);
    }
  }

  // ---------- one line ----------

  /** Between header lines: the parse position is where the next line starts. */
  ghost predicate LineStart(b: string, a: Archive) {
    Ready(b, a) && a.state == HdBegin
  }

  lemma FindsTheHeader(b: string, a: Archive, k: Cuts)
    requires LineStart(b, a) && HeaderAt(b, a.nextParsePos, k)
    ensures Parse(HeaderLine, b, a) == Parsed(Ok, HeaderArchive(a, k))
  {
    HeaderIsRead(b, a.nextParsePos, a, a.nextParsePos, a, k);
  }

  lemma FindsTheBlankLine(b: string, a: Archive, w: nat)
    requires LineStart(b, a) && BlankLineAt(b, a.nextParsePos, w)
    ensures Parse(HeaderLine, b, a) == Parsed(CrlfLine, BlankLineArchive(a, w))
  {
    BlankLineIsRead(b, a.nextParsePos, a, a.nextParsePos, a, w);
  }

  /** parse_header_line answers OK exactly on a header line and CRLF_LINE exactly on a blank line. */
  lemma AcceptsExactlyTheGrammar(b: string, a: Archive)
    requires LineStart(b, a)
    ensures Parse(HeaderLine, b, a).status == Ok <==> exists k :: HeaderAt(b, a.nextParsePos, k)
    ensures Parse(HeaderLine, b, a).status == CrlfLine <==> exists w :: BlankLineAt(b, a.nextParsePos, w)
  {
    var s := a.nextParsePos;
    var line := RunIsSound(b, s, a, s, a, Cuts(0, 0, 0, 0));
    if k :| HeaderAt(b, s, k) {
      FindsTheHeader(b, a, k);
    }
    if w :| BlankLineAt(b, s, w) {
      FindsTheBlankLine(b, a, w);
    }
  }

  /**
   * The third possibility the grammar does not name: the machine ends up in the state without a case, and so answers
   * AGAIN to everything that follows, exactly when a value runs into a bare LF.
   */
  lemma StuckExactlyOnBareLf(b: string, a: Archive)
    requires LineStart(b, a)
    ensures var r := Parse(HeaderLine, b, a);
            r.status == Again && r.ar.state == HdLfAfterVal <==> exists k :: BareLfAt(b, a.nextParsePos, k)
  {
    var s := a.nextParsePos;
    var line := RunIsSound(b, s, a, s, a, Cuts(0, 0, 0, 0));
    if k :| BareLfAt(b, s, k) {
      BareLfIsRead(b, s, a, s, a, k);
    }
  }

  /** Blanks end where the first other byte is. */
  lemma BlanksMeet(b: string, s: int, x: int, y: int)
    requires Blanks(b, s, x) && Blanks(b, s, y) && x < |b| && !Blank(b[x])
    ensures y <= x
    ensures y < |b| && !Blank(b[y]) ==> x == y
  {
    assert y < |b| && x > y ==> Blank(b[y]);
  }

  lemma NamesMeet(b: string, n: int, x: int, y: int)
    requires NameChars(b, n, x) && NameChars(b, n, y) && x < |b| && !NameChar(b[x])
    ensures y <= x
    ensures y < |b| && !NameChar(b[y]) ==> x == y
  {
    assert y < |b| && x > y ==> NameChar(b[y]);
  }

  lemma ValuesMeet(b: string, v: int, x: int, y: int)
    requires ValueChars(b, v, x) && ValueChars(b, v, y) && x < |b| && LineEnd(b[x])
    ensures y <= x
    ensures y < |b| && LineEnd(b[y]) ==> x == y
  {
    assert y < |b| && x > y ==> !LineEnd(b[y]);
  }

  /** Two names with their colons are one. */
  lemma NamePartsMeet(b: string, s: nat, k: Cuts, k': Cuts)
    requires NamePart(b, s, k) && NamePart(b, s, k')
    ensures k.n == k'.n && k.c == k'.c
  {
    assert NameChar(b[k.n]) && NameChar(b[k'.n]);
    BlanksMeet(b, s, k.n, k'.n);
    NamesMeet(b, k.n, k.c, k'.c);
  }

  /** One position has one header line. */
  lemma HeaderIsUnique(b: string, s: nat, k: Cuts, k': Cuts)
    requires HeaderAt(b, s, k) && HeaderAt(b, s, k')
    ensures k == k'
  {
    NamePartsMeet(b, s, k, k');
    BlanksMeet(b, k.c + 1, k.v, k'.v);
    ValuesMeet(b, k.v, k.w, k'.w);
  }

  /** Where the line breaks before its colon, no name with a colon stands. */
  lemma EarlyBreakIsNoName(b: string, s: nat, k: Cuts, q: nat, k': Cuts)
    requires BrokenEarly(b, s, k, q)
    ensures !NamePart(b, s, k')
  {
    if NamePart(b, s, k') {
      assert NameChar(b[k'.n]);
      if Blanks(b, s, q) && !Blank(b[q]) && !NameChar(b[q]) {
        BlanksMeet(b, s, q, k'.n);
      } else {
        BlanksMeet(b, s, k'.n, k.n);
        if b[k.n] != '\r' {
          NamesMeet(b, k.n, q, k'.c);
        }
      }
    }
  }

  lemma BrokenIsNoHeader(b: string, s: nat, k: Cuts, q: nat, k': Cuts)
    requires BrokenAt(b, s, k, q)
    ensures !(NamePart(b, s, k') && Blanks(b, k'.c + 1, k'.v) && ValueChars(b, k'.v, k'.w)
            && k'.w < |b| && b[k'.w] == '\n')
    ensures !HeaderAt(b, s, k')
  {
    hide NameChar, Letter, Decimal;
    if BrokenEarly(b, s, k, q) {
      EarlyBreakIsNoName(b, s, k, q, k');
    } else if NamePart(b, s, k') {
      NamePartsMeet(b, s, k, k');
      if Blanks(b, k'.c + 1, k'.v) && ValueChars(b, k'.v, k'.w) && k'.w < |b| && LineEnd(b[k'.w]) {
        if Blanks(b, k.c + 1, q) && LineEnd(b[q]) {
          BlanksMeet(b, k.c + 1, q, k'.v);
          BlanksMeet(b, k.c + 1, k'.v, q);
        } else {
          BlanksMeet(b, k.c + 1, k.v, k'.v);
          BlanksMeet(b, k.c + 1, k'.v, k.v);
          ValuesMeet(b, k.v, k.w, k'.w);
        }
      }
    }
  }

  lemma NameIsNoBlankLine(b: string, s: nat, n: nat, w: nat)
    requires Blanks(b, s, n) && n < |b| && NameChar(b[n])
    ensures !BlankLineAt(b, s, w)
  {
    if BlankLineAt(b, s, w) {
      BlanksMeet(b, s, w, n);
    }
  }

  lemma BrokenIsNoBlankLine(b: string, s: nat, k: Cuts, q: nat, w: nat)
    requires BrokenAt(b, s, k, q)
    ensures !BlankLineAt(b, s, w)
  {
    if Blanks(b, s, k.n) && k.n < |b| && NameChar(b[k.n]) {
      NameIsNoBlankLine(b, s, k.n, w);
    } else if BlankLineAt(b, s, w) {
      if Blanks(b, s, q) && !Blank(b[q]) {
        BlanksMeet(b, s, q, w);
      } else {
        BlanksMeet(b, s, w, k.n);
      }
    }
  }

  /** Nor is the broken line the beginning of one: the machine would not have got to the end of the bytes. */
  lemma BrokenIsNotOpen(b: string, s: nat, a: Archive, k: Cuts, q: nat, ar: Archive, k': Cuts)
    requires BrokenAt(b, s, k, q)
    ensures !At(b, s, a, |b|, ar, k')
  {
    if At(b, s, a, |b|, ar, k') {
      match ar.state {
        case HdBegin => NotAllBlank(b, s, k, q);
        case HdName => NotInName(b, s, k, q, k');
        case HdCrAfterVal =>
          if ar.isCrlfLine {
            NotBehindCr(b, s, k, q, k'.w);
          } else {
            NotInValue(b, s, k, q, k');
          }
        case HdLfAfterVal => BrokenIsNoHeader(b, s, k, q, k');
        case _ => NotInValue(b, s, k, q, k');
      }
    }
  }

  lemma NotAllBlank(b: string, s: nat, k: Cuts, q: nat)
    requires BrokenAt(b, s, k, q)
    ensures !Blanks(b, s, |b|)
  {
    assert Blanks(b, s, |b|) ==> Blank(b[q]) && (s <= k.n < |b| ==> Blank(b[k.n]));
  }

  lemma NameStarts(b: string, n: nat, c: nat)
    ensures NameChars(b, n, c) ==> NameChar(b[n]) && !Blank(b[n])
  {
  }

  lemma NotInName(b: string, s: nat, k: Cuts, q: nat, k': Cuts)
    requires BrokenAt(b, s, k, q)
    ensures !(Blanks(b, s, k'.n) && NameChars(b, k'.n, |b|))
  {
    NameStarts(b, k'.n, |b|);
    if Blanks(b, s, k'.n) && NameChars(b, k'.n, |b|) {
      if Blanks(b, s, q) && !Blank(b[q]) {
        BlanksMeet(b, s, q, k'.n);
      } else {
        BlanksMeet(b, s, k'.n, k.n);
        BlanksMeet(b, s, k.n, k'.n);
      }
    }
  }

  lemma NotBehindCr(b: string, s: nat, k: Cuts, q: nat, w: nat)
    requires BrokenAt(b, s, k, q)
    ensures !(Blanks(b, s, w) && |b| == w + 1 && b[w] == '\r')
  {
    if Blanks(b, s, w) && |b| == w + 1 && b[w] == '\r' {
      if Blanks(b, s, q) && !Blank(b[q]) {
        BlanksMeet(b, s, q, w);
      } else {
        BlanksMeet(b, s, w, k.n);
        BlanksMeet(b, s, k.n, w);
      }
    }
  }

  /** The bytes behind a name and its colon are blanks, or blanks and a value with or without its CR. */
  ghost predicate ValueOpen(b: string, k: Cuts) {
    || Blanks(b, k.c + 1, |b|)
    || (Blanks(b, k.c + 1, k.v) && ValueChars(b, k.v, |b|))
    || (ValuePart(b, k) && |b| == k.w + 1)
  }

  lemma NotInValue(b: string, s: nat, k: Cuts, q: nat, k': Cuts)
    requires BrokenAt(b, s, k, q)
    ensures !(NamePart(b, s, k') && ValueOpen(b, k'))
  {
    if BrokenEarly(b, s, k, q) {
      EarlyBreakIsNoName(b, s, k, q, k');
    } else if NamePart(b, s, k') && ValueOpen(b, k') {
      NamePartsMeet(b, s, k, k');
      var late := Blanks(b, k.c + 1, q) && LineEnd(b[q]);
      var x := if late then q else k.v;
      if Blanks(b, k.c + 1, |b|) {
        BlanksMeet(b, k.c + 1, x, |b|);
      } else {
        BlanksMeet(b, k.c + 1, x, k'.v);
        BlanksMeet(b, k.c + 1, k'.v, x);
        if !late {
          ValuesMeet(b, k.v, k.w, if ValueChars(b, k'.v, |b|) then |b| else k'.w);
        }
      }
    }
  }

  /** parse_header_line answers INVALID exactly when some byte breaks the line. */
  lemma InvalidExactlyWhen(b: string, a: Archive)
    requires LineStart(b, a)
    ensures Parse(HeaderLine, b, a).status == InvalidRequest <==> exists k, q :: BrokenAt(b, a.nextParsePos, k, q)
  {
    var s := a.nextParsePos;
    var line := RunIsSound(b, s, a, s, a, Cuts(0, 0, 0, 0));
    hide HeaderAt, BlankLineAt, BareLfAt, At, BrokenAt, Run, WellFormed;
    if k, q :| BrokenAt(b, s, k, q) {
      BrokenIsNoHeader(b, s, k, q, line);
      BrokenIsNoBlankLine(b, s, k, q, line.w);
      forall ar
        ensures !At(b, s, a, |b|, ar, line)
      {
        BrokenIsNotOpen(b, s, a, k, q, ar, line);
      }
    }
  }

  lemma HeaderKeepsLineStart(b: string, a: Archive, k: Cuts)
    requires LineStart(b, a) && HeaderAt(b, a.nextParsePos, k)
    ensures LineStart(b, HeaderArchive(a, k)) && HeaderArchive(a, k).nextParsePos >= a.nextParsePos + 5
  {
  }

  // ---------- the header block ----------

  datatype Header = Header(name: Slice, value: Slice)

  /** The lines `ks` follow one another from s. */
  ghost predicate LinesAt(b: string, s: nat, ks: seq<Cuts>)
    decreases |ks|
  {
    ks == [] || (HeaderAt(b, s, ks[0]) && LinesAt(b, ks[0].w + 2, ks[1..]))
  }

  ghost function LinesEnd(s: nat, ks: seq<Cuts>): nat {
    if ks == [] then s else ks[|ks| - 1].w + 2
  }

  ghost function Headers(ks: seq<Cuts>): (hs: seq<Header>)
    ensures |hs| == |ks|
  {
    seq(|ks|, i requires 0 <= i < |ks| => Header(Slice(ks[i].n, ks[i].c - ks[i].n), Slice(ks[i].v, ks[i].w - ks[i].v)))
  }

  /** The loop of `request_handle_headers` without its callbacks: the headers it delivers and the answer it stops at. */
  function ParseBlock(b: string, a: Archive): (r: (seq<Header>, Parsed))
    requires LineStart(b, a)
    decreases |b| - a.nextParsePos
  {
    var r := Parse(HeaderLine, b, a);
    if r.status != Ok then ([], r)
    else
      OkMovesOn(b, a);
      var (hs, last) := ParseBlock(b, r.ar);
      ([Header(r.ar.headerName, r.ar.headerValue)] + hs, last)
  }

  /** Each OK consumes at least five bytes, which bounds the header loop. */
  lemma OkMovesOn(b: string, a: Archive)
    requires LineStart(b, a) && Parse(HeaderLine, b, a).status == Ok
    ensures var a' := Parse(HeaderLine, b, a).ar;
            LineStart(b, a') && a.nextParsePos + 5 <= a'.nextParsePos && a'.numHeaders == a.numHeaders + 1
  {
    AcceptsExactlyTheGrammar(b, a);
    var k :| HeaderAt(b, a.nextParsePos, k);
    FindsTheHeader(b, a, k);
    HeaderKeepsLineStart(b, a, k);
  }

  lemma HeadersFromFirst(ks: seq<Cuts>)
    requires ks != []
    ensures Headers(ks) == [Header(Slice(ks[0].n, ks[0].c - ks[0].n), Slice(ks[0].v, ks[0].w - ks[0].v))]
            + Headers(ks[1..])
  {
  }

  lemma NoHeaders()
    ensures Headers([]) == []
  {
  }

  /** A whole block: the headers come out in order, then CRLF_LINE, with one count for each line. */
  lemma {:induction false} BlockIsRead(b: string, a: Archive, ks: seq<Cuts>, w: nat)
    requires LineStart(b, a) && LinesAt(b, a.nextParsePos, ks) && BlankLineAt(b, LinesEnd(a.nextParsePos, ks), w)
    ensures var (hs, last) := ParseBlock(b, a);
            && hs == Headers(ks) && last.status == CrlfLine
            && last.ar.nextParsePos == w + 2 && last.ar.numHeaders == a.numHeaders + |ks| + 1
    decreases |ks|
  {
    hide WellFormed, HeaderAt, BlankLineAt, Headers, Run, LineStart;
    if ks == [] {
      FindsTheBlankLine(b, a, w);
      NoHeaders();
    } else {
      var k := ks[0];
      FindsTheHeader(b, a, k);
      HeaderKeepsLineStart(b, a, k);
      BlockIsRead(b, HeaderArchive(a, k), ks[1..], w);
      HeadersFromFirst(ks);
    }
  }

  /** Conversely a block answered with CRLF_LINE is a sequence of header lines and a blank line. */
  lemma {:induction false} BlockIsSound(b: string, a: Archive) returns (ks: seq<Cuts>, w: nat)
    requires LineStart(b, a) && ParseBlock(b, a).1.status == CrlfLine
    ensures LinesAt(b, a.nextParsePos, ks) && BlankLineAt(b, LinesEnd(a.nextParsePos, ks), w)
    decreases |b| - a.nextParsePos
  {
    hide WellFormed, HeaderAt, BlankLineAt;
    AcceptsExactlyTheGrammar(b, a);
    if Parse(HeaderLine, b, a).status == Ok {
      var k :| HeaderAt(b, a.nextParsePos, k);
      FindsTheHeader(b, a, k);
      OkMovesOn(b, a);
      var rest;
      rest, w := BlockIsSound(b, HeaderArchive(a, k));
      ks := [k] + rest;
      assert ks[1..] == rest;
    } else {
      ks := [];
      w :| BlankLineAt(b, a.nextParsePos, w);
    }
  }

  lemma {:induction false} LinesAreLong(b: string, s: nat, ks: seq<Cuts>)
    requires LinesAt(b, s, ks)
    ensures s + 5 * |ks| <= LinesEnd(s, ks)
    decreases |ks|
  {
    if ks != [] {
      LinesAreLong(b, ks[0].w + 2, ks[1..]);
    }
  }

  /**
   * The header block is accepted exactly when it is header lines and a blank line, and the count of lines is bounded by
   * the bytes read.
   */
  lemma BlockAcceptsExactlyTheGrammar(b: string, a: Archive)
    requires LineStart(b, a)
    ensures ParseBlock(b, a).1.status == CrlfLine <==>
              exists ks, w :: LinesAt(b, a.nextParsePos, ks) && BlankLineAt(b, LinesEnd(a.nextParsePos, ks), w)
    ensures ParseBlock(b, a).1.status == CrlfLine ==>
              var last := ParseBlock(b, a).1.ar;
              5 * (last.numHeaders - a.numHeaders - 1) + 2 <= last.nextParsePos - a.nextParsePos
  {
    if ParseBlock(b, a).1.status == CrlfLine {
      var ks, w := BlockIsSound(b, a);
      BlockIsRead(b, a, ks, w);
      LinesAreLong(b, a.nextParsePos, ks);
    }
    if ks, w :| LinesAt(b, a.nextParsePos, ks) && BlankLineAt(b, LinesEnd(a.nextParsePos, ks), w) {
      BlockIsRead(b, a, ks, w);
    }
  }
}
