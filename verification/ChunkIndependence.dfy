// How the network cuts the bytes does not change what the parsers answer.
module ChunkIndependence {
  import opened HttpParser

  /** Equal outcomes; after an invalid request the stored parse position is not compared. */
  predicate Agree(x: Parsed, y: Parsed) {
    && x.status == y.status
    && x.ar.(nextParsePos := 0) == y.ar.(nextParsePos := 0)
    && (x.status != InvalidRequest ==> x == y)
  }

  ghost predicate Commutes(x: Stepped, y: Stepped, q: int) {
    y == x.(ar := x.ar.(nextParsePos := q))
  }

  lemma UrlPartIgnoresStoredPos(seen: string, ar: Archive, q: int)
    requires |seen| > 0 && WellFormed(|seen| - 1, ar) && (InMethod(ar.state) || ar.state == RlUrl)
    ensures Commutes(RequestLineStep(seen, ar), RequestLineStep(seen, ar.(nextParsePos := q)), q)
  {
    hide ParseMethod, SplitUrl, ProtocolStep, VersionStep;
  }

  lemma VersionPartIgnoresStoredPos(seen: string, ar: Archive, q: int)
    requires |seen| > 0 && WellFormed(|seen| - 1, ar) && !InMethod(ar.state) && ar.state != RlUrl
    ensures Commutes(RequestLineStep(seen, ar), RequestLineStep(seen, ar.(nextParsePos := q)), q)
  {
    hide PushDigit, MethodStep, UrlStep;
  }

  lemma HeaderLineIgnoresStoredPos(p: nat, ch: char, ar: Archive, q: int)
    requires WellFormed(p, ar)
    ensures WellFormed(p, ar.(nextParsePos := q))
    ensures Commutes(HeaderLineStep(p, ch, ar), HeaderLineStep(p, ch, ar.(nextParsePos := q)), q)
  {
  }

  lemma StepIgnoresStoredPos(m: Machine, seen: string, ar: Archive, q: int)
    requires |seen| > 0 && WellFormed(|seen| - 1, ar)
    ensures WellFormed(|seen| - 1, ar.(nextParsePos := q))
    ensures Commutes(Step(m, seen, ar), Step(m, seen, ar.(nextParsePos := q)), q)
  {
    HeaderLineIgnoresStoredPos(|seen| - 1, seen[|seen| - 1], ar, q);
    if m == RequestLine {
      if InMethod(ar.state) || ar.state == RlUrl {
        UrlPartIgnoresStoredPos(seen, ar, q);
      } else {
        VersionPartIgnoresStoredPos(seen, ar, q);
      }
    }
    hide RequestLineStep, HeaderLineStep, WellFormed;
  }

  /** One round of the parser loop. */
  lemma OneRound(m: Machine, b: string, p: nat, ar: Archive)
    requires p < |b| && WellFormed(p, ar)
    ensures var s := Step(m, b[..p + 1], ar);
            && (s.verdict == More ==> WellFormed(p + 1, s.ar) && Run(m, b, p, ar) == Run(m, b, p + 1, s.ar))
            && (s.verdict == Complete ==> Run(m, b, p, ar) == Finish(m, p, s.ar))
            && (s.verdict == Reject ==> Run(m, b, p, ar) == Parsed(InvalidRequest, s.ar))
  {
    hide Step, WellFormed, Finish;
  }

  lemma NoMoreBytes(m: Machine, b: string, ar: Archive)
    requires WellFormed(|b|, ar)
    ensures Run(m, b, |b|, ar) == Parsed(Again, ar.(nextParsePos := |b|))
  {
    hide Step, WellFormed, Finish;
  }

  lemma FinishIgnoresStoredPos(m: Machine, p: nat, ar: Archive, q: int)
    ensures Finish(m, p, ar.(nextParsePos := q)) == Finish(m, p, ar)
  {
  }

  lemma {:induction false} RunIgnoresStoredPos(m: Machine, b: string, p: nat, ar: Archive, q: int)
    requires p <= |b| && WellFormed(p, ar)
    ensures WellFormed(p, ar.(nextParsePos := q))
    ensures Agree(Run(m, b, p, ar.(nextParsePos := q)), Run(m, b, p, ar))
    decreases |b| - p
  {
    HeaderLineIgnoresStoredPos(p, 'a', ar, q);
    hide Run, Step, Finish, WellFormed;
    if p == |b| {
      NoMoreBytes(m, b, ar);
      NoMoreBytes(m, b, ar.(nextParsePos := q));
    } else {
      var s := Step(m, b[..p + 1], ar);
      StepIgnoresStoredPos(m, b[..p + 1], ar, q);
      OneRound(m, b, p, ar);
      OneRound(m, b, p, ar.(nextParsePos := q));
      FinishIgnoresStoredPos(m, p, s.ar, q);
      if s.verdict == More {
        RunIgnoresStoredPos(m, b, p + 1, s.ar, q);
      }
    }
  }

  lemma {:induction false} RunOnLongerBuffer(m: Machine, b: string, c: string, p: nat, ar: Archive)
    requires p <= |b| && WellFormed(p, ar)
    ensures Run(m, b, p, ar).status != Again ==> Run(m, b + c, p, ar) == Run(m, b, p, ar)
    ensures Run(m, b, p, ar).status == Again ==>
              var a := Run(m, b, p, ar).ar;
              && a.nextParsePos == |b|
              && WellFormed(|b|, a)
              && Agree(Run(m, b + c, |b|, a), Run(m, b + c, p, ar))
    decreases |b| - p
  {
    hide Run, Step, Finish, WellFormed;
    if p < |b| {
      assert (b + c)[..p + 1] == b[..p + 1];
      var s := Step(m, b[..p + 1], ar);
      OneRound(m, b, p, ar);
      OneRound(m, b + c, p, ar);
      if s.verdict == More {
        RunOnLongerBuffer(m, b, c, p + 1, s.ar);
      } else {
        FinishAnswers(m, p, s.ar);
      }
    } else {
      NoMoreBytes(m, b, ar);
      RunIgnoresStoredPos(m, b + c, p, ar, p);
    }
  }

  lemma FinishAnswers(m: Machine, p: nat, ar: Archive)
    ensures Finish(m, p, ar).status == Ok || Finish(m, p, ar).status == CrlfLine
  {
  }

  function Concat(chunks: seq<string>): string {
    if chunks == [] then "" else chunks[0] + Concat(chunks[1..])
  }

  /** Each chunk is appended to the buffer and the parser is called again, until it stops answering AGAIN. */
  function ParseInPieces(m: Machine, b: string, ar: Archive, chunks: seq<string>): Parsed
    requires Ready(b, ar)
    decreases |chunks|
  {
    if chunks == [] then Parsed(Again, ar)
    else
      var r := Parse(m, b + chunks[0], ar);
      if r.status != Again then r
      else
        RunOnLongerBuffer(m, b + chunks[0], "", ar.nextParsePos, ar);
        ParseInPieces(m, b + chunks[0], r.ar, chunks[1..])
  }

  /** Every way of cutting the bytes gives the outcome of one call on all of them. */
  lemma {:induction false} ChunkingDoesNotMatter(m: Machine, b: string, ar: Archive, chunks: seq<string>)
    requires Ready(b, ar) && ar.nextParsePos == |b|
    ensures Ready(b + Concat(chunks), ar)
    ensures Agree(ParseInPieces(m, b, ar, chunks), Parse(m, b + Concat(chunks), ar))
    decreases |chunks|
  {
    if chunks == [] {
      assert b + Concat(chunks) == b;
    } else {
      var b1, rest := b + chunks[0], Concat(chunks[1..]);
      assert b + Concat(chunks) == b1 + rest;
      RunOnLongerBuffer(m, b1, rest, ar.nextParsePos, ar);
      var r := Parse(m, b1, ar);
      if r.status == Again {
        ChunkingDoesNotMatter(m, b1, r.ar, chunks[1..]);
      }
    }
  }

  /**
   * A bare LF inside a header value is not rejected: the machine then swallows every byte and asks for more forever.
   */
  lemma {:induction false} BareLfNeverAnswers(b: string, p: nat, ar: Archive)
    requires p <= |b| && WellFormed(p, ar) && ar.state == HdLfAfterVal
    ensures Run(HeaderLine, b, p, ar) == Parsed(Again, ar.(nextParsePos := |b|))
    decreases |b| - p
  {
    if p < |b| {
      BareLfNeverAnswers(b, p + 1, ar);
    }
  }
}
