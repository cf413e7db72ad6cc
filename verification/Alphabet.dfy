// The characters of HTTP, written out.  The grammars and the case of letters are stated with these alone; that the
// program's character tests and its arithmetic on characters agree with them is proved.
module Alphabet {
  const UPPER: string := "ABCDEFGHIJKLMNOPQRSTUVWXYZ"
  const LOWER: string := "abcdefghijklmnopqrstuvwxyz"
  const DIGITS: string := "0123456789"

  /** The characters of s follow one another in the code from `first` on. */
  ghost predicate Consecutive(s: string, first: int) {
    forall i | 0 <= i < |s| :: s[i] as int == first + i
  }

  lemma AlphabetsAreConsecutive()
    ensures Consecutive(UPPER, 'A' as int) && |UPPER| == 26
    ensures Consecutive(LOWER, 'a' as int) && |LOWER| == 26
    ensures Consecutive(DIGITS, '0' as int) && |DIGITS| == 10
  {
  }

  lemma AmongConsecutive(s: string, first: int, c: char)
    requires Consecutive(s, first)
    ensures c in s <==> first <= c as int < first + |s|
    ensures c in s ==> s[c as int - first] == c
  {
    if first <= c as int < first + |s| {
      assert s[c as int - first] == c;
    }
  }

  lemma AmongAlphabets(c: char)
    ensures c in UPPER <==> 'A' <= c <= 'Z'
    ensures c in LOWER <==> 'a' <= c <= 'z'
    ensures c in DIGITS <==> '0' <= c <= '9'
    ensures c in DIGITS ==> |DIGITS| == 10 && DIGITS[c as int - '0' as int] == c
  {
    AlphabetsAreConsecutive();
    hide UPPER, LOWER, DIGITS;
    AmongConsecutive(UPPER, 'A' as int, c);
    AmongConsecutive(LOWER, 'a' as int, c);
    AmongConsecutive(DIGITS, '0' as int, c);
  }

  ghost predicate Letter(c: char)
    ensures Letter(c) <==> 'A' <= c <= 'Z' || 'a' <= c <= 'z'
  {
    AmongAlphabets(c);
    c in UPPER || c in LOWER
  }

  ghost predicate Decimal(c: char)
    ensures Decimal(c) <==> '0' <= c <= '9'
  {
    AmongAlphabets(c);
    c in DIGITS
  }

  /** The place of a digit among the ten. */
  ghost function DigitValue(c: char): (r: nat)
    requires Decimal(c)
    ensures r == c as int - '0' as int
  {
    AmongAlphabets(c);
    AlphabetsAreConsecutive();
    var i :| 0 <= i < |DIGITS| && DIGITS[i] == c;
    i
  }

  ghost predicate Blank(c: char) { c in " \t" }

  ghost predicate LineEnd(c: char) { c in "\r\n" }

  /** What the name of a header is made of. */
  ghost predicate NameChar(c: char) { Letter(c) || Decimal(c) || c == '-' }
}
