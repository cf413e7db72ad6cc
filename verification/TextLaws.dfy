// What the program's operations on characters, names and values mean, said with the alphabets written out: its tests
// and arithmetic on characters, lowering, comparison without regard to case, and the names it knows.
module TextLaws {
  import opened Alphabet
  import opened Common
  import opened HttpParser
  import opened Request
  import opened HeaderMeaning
  import E = EndToEnd
  import H = HeaderGrammar

  // ---------- characters ----------

  /** The character tests of the parsers. */
  lemma ClassesAreTheAlphabets(c: char)
    ensures IsAlpha(c) <==> c in UPPER || c in LOWER
    ensures IsDigit(c) <==> c in DIGITS
    ensures IsNameChar(c) <==> c in UPPER || c in LOWER || c in DIGITS || c == '-'
    ensures IsBlank(c) <==> c in " \t"
    ensures IsEol(c) <==> c in "\r\n"
    ensures c in DIGITS ==> Digit(c) < |DIGITS| && DIGITS[Digit(c)] == c
  {
    AmongAlphabets(c);
    hide UPPER, LOWER, DIGITS;
  }

  /** A letter in upper case becomes the one in lower case at the same place of the alphabet; nothing else changes. */
  lemma LowersLetters(c: char)
    ensures |UPPER| == |LOWER|
    ensures forall i | 0 <= i < |UPPER| && UPPER[i] == c :: ToLower(c) == LOWER[i]
    ensures c !in UPPER ==> ToLower(c) == c
  {
    AlphabetsAreConsecutive();
    AmongAlphabets(c);
    hide UPPER, LOWER, DIGITS;
  }

  // ---------- names ----------

  /** The same character, or the two cases of one letter. */
  ghost predicate SameLetter(c: char, d: char) {
    || c == d
    || exists i :: 0 <= i < |UPPER| && |UPPER| == |LOWER| && {c, d} == {UPPER[i], LOWER[i]}
  }

  ghost predicate SameButCase(s: string, t: string) {
    |s| == |t| && forall i | 0 <= i < |s| :: SameLetter(s[i], t[i])
  }

  lemma LowersTogether(c: char, d: char)
    ensures ToLower(c) == ToLower(d) <==> SameLetter(c, d)
  {
    AlphabetsAreConsecutive();
    AmongAlphabets(c);
    AmongAlphabets(d);
    LowersLetters(c);
    LowersLetters(d);
    hide UPPER, LOWER, DIGITS, ToLower;
    if ToLower(c) == ToLower(d) && c != d {
      if c in UPPER {
        PlaceInAlphabet(c, d);
      } else {
        PlaceInAlphabet(d, c);
      }
    }
  }

  lemma PlaceInAlphabet(c: char, d: char)
    requires ToLower(c) == ToLower(d) && c != d && c in UPPER
    ensures SameLetter(c, d)
  {
    AlphabetsAreConsecutive();
    AmongAlphabets(c);
    AmongAlphabets(d);
    hide UPPER, LOWER, DIGITS;
    var i := c as int - 'A' as int;
    assert UPPER[i] == c && LOWER[i] == d;
  }

  /** Two texts have the same lower-case form exactly when they differ in the case of letters only. */
  lemma SameInLowerCase(s: string, t: string)
    ensures LowerText(s) == LowerText(t) <==> SameButCase(s, t)
  {
    hide ToLower, SameLetter;
    forall i | 0 <= i < |s| && i < |t|
      ensures ToLower(s[i]) == ToLower(t[i]) <==> SameLetter(s[i], t[i])
    {
      LowersTogether(s[i], t[i]);
    }
    if LowerText(s) == LowerText(t) {
      assert |s| == |t|;
      assert forall i | 0 <= i < |s| :: LowerText(s)[i] == ToLower(s[i]) && LowerText(t)[i] == ToLower(t[i]);
    }
  }

  lemma NamesInAnyCase(b: string, k: H.Cuts, b': string, k': H.Cuts)
    ensures NameOf(b, k) == NameOf(b', k')
            <==> SameButCase(Text(b, Slice(k.n, k.c - k.n)), Text(b', Slice(k'.n, k'.c - k'.n)))
  {
    SameInLowerCase(Text(b, Slice(k.n, k.c - k.n)), Text(b', Slice(k'.n, k'.c - k'.n)));
    hide Text, LowerText, SameButCase;
  }

  /** Header lines whose names differ in the case of letters only fill the same slot, each with its value. */
  lemma SameSlotInAnyCase(w: World, r: Request, s: nat, k: H.Cuts, r': Request, s': nat, k': H.Cuts)
    requires H.HeaderAt(r.ib, s, k) && r.ar.headerName == Slice(k.n, k.c - k.n) && r.ar.headerValue == ValueOf(k)
    requires H.HeaderAt(r'.ib, s', k') && r'.ar.headerName == Slice(k'.n, k'.c - k'.n)
             && r'.ar.headerValue == ValueOf(k')
    requires SameButCase(Text(r.ib, r.ar.headerName), Text(r'.ib, r'.ar.headerName)) && Known(NameOf(r.ib, k))
    ensures var name := NameOf(r.ib, k);
            && OnHeader(w, r).slots == r.slots[name := ValueOf(k)]
            && OnHeader(w, r').slots == r'.slots[name := ValueOf(k')]
  {
    hide OnHeader, NameOf, Known, SameButCase, Text, H.HeaderAt, HeadKept, E.TailKept, AfterLine, Accepted;
    NamesInAnyCase(r.ib, k, r'.ib, k');
    HeaderMeans(w, r, s, k);
    HeaderMeans(w, r', s', k');
  }

  /** The names that have a slot, all of them in lower case. */
  lemma KnownNames(name: string)
    ensures Known(name) <==> name in {
              "accept", "accept-charset", "accept-encoding", "accept-language", "cache-control", "content-length",
              "connection", "cookie", "date", "host", "if-modified-since", "if-unmodified-since", "max-forwards",
              "range", "referer", "transfer-encoding", "user-agent"}
  {
    LookupIsAnEntry(HF_LIST, name);
    assert HF_LIST[0].0 == "accept" && HF_LIST[1].0 == "accept-charset" && HF_LIST[2].0 == "accept-encoding";
    assert HF_LIST[3].0 == "accept-language" && HF_LIST[4].0 == "cache-control" && HF_LIST[5].0 == "content-length";
    assert HF_LIST[6].0 == "connection" && HF_LIST[7].0 == "cookie" && HF_LIST[8].0 == "date" && HF_LIST[9].0 == "host";
    assert HF_LIST[10].0 == "if-modified-since" && HF_LIST[11].0 == "if-unmodified-since";
    assert HF_LIST[12].0 == "max-forwards" && HF_LIST[13].0 == "range" && HF_LIST[14].0 == "referer";
    assert HF_LIST[15].0 == "transfer-encoding" && HF_LIST[16].0 == "user-agent" && |HF_LIST| == 17;
  }

  // ---------- values ----------

  lemma LowerIsItself(s: string)
    requires forall c | c in s :: c !in UPPER
    ensures LowerText(s) == s
  {
    hide UPPER, ToLower;
    forall i | 0 <= i < |s|
      ensures LowerText(s)[i] == s[i]
    {
      LowersLetters(s[i]);
    }
  }

  /**
   * The comparison with a literal in lower case looks at as many characters as the literal has, and not at their case.
   */
  lemma ComparesWithoutCase(text: string, literal: string)
    requires forall c | c in literal :: c !in UPPER
    ensures CaseEqual(text, literal) <==> |literal| <= |text| && SameButCase(text[..|literal|], literal)
  {
    LowerIsItself(literal);
    hide SameButCase, UPPER, LowerText;
    if |literal| <= |text| {
      SameInLowerCase(text[..|literal|], literal);
    }
  }

  function CodingName(te: TransferEncoding): string {
    match te
    case TeIdentity => "identity"
    case TeChunked => "chunked"
    case TeCompress => "compress"
    case TeDeflate => "deflate"
    case TeGzip => "gzip"
  }

  lemma EqualLetters(text: string, literal: string, i: nat)
    requires CaseEqual(text, literal) && i < |literal|
    ensures ToLower(text[i]) == literal[i]
  {
    hide ToLower;
    assert LowerText(text[..|literal|])[i] == literal[i];
  }

  /** No value names two codings. */
  lemma OneCoding(text: string, te: TransferEncoding, te': TransferEncoding)
    requires CaseEqual(text, CodingName(te)) && CaseEqual(text, CodingName(te'))
    ensures te == te'
  {
    EqualLetters(text, CodingName(te), 0);
    EqualLetters(text, CodingName(te'), 0);
    EqualLetters(text, CodingName(te), 1);
    EqualLetters(text, CodingName(te'), 1);
    hide ToLower, CaseEqual;
  }

  /**
   * A value names the coding whose name it begins with, in any case of letters, and none when there is no such name.
   */
  lemma CodingIsNamed(text: string, te: TransferEncoding)
    ensures Coding(text) == Some(te) <==> CaseEqual(text, CodingName(te))
    ensures Coding(text) == None <==> forall x: TransferEncoding :: !CaseEqual(text, CodingName(x))
  {
    forall x: TransferEncoding, y: TransferEncoding | CaseEqual(text, CodingName(x)) && CaseEqual(text, CodingName(y))
      ensures x == y
    {
      OneCoding(text, x, y);
    }
    hide CaseEqual;
    assert CodingName(TeIdentity) == "identity" && CodingName(TeChunked) == "chunked" && CodingName(TeGzip) == "gzip";
    assert CodingName(TeCompress) == "compress" && CodingName(TeDeflate) == "deflate";
  }

  // ---------- sizes ----------

  /** A size in the field that holds it: the one number from -2^31 to 2^31 - 1 that differs by a multiple of 2^32. */
  lemma SizeInField(n: nat, m: int)
    ensures m == Int32(n) <==> -0x8000_0000 <= m < 0x8000_0000 && (n - m) % 0x1_0000_0000 == 0
  {
  }
}
