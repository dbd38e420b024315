/** The decoder's letters and groups against those of RFC 4648, section 4. */
module Base64Standard {
  import opened Base64

  /** Table 1 of RFC 4648. */
  const UPPER := "ABCDEFGHIJKLMNOPQRSTUVWXYZ"
  const LOWER := "abcdefghijklmnopqrstuvwxyz"
  const DIGITS := "0123456789"
  const ALPHABET := UPPER + LOWER + DIGITS + "+/"

  lemma RowsAreConsecutive()
    ensures UPPER == seq(26, i requires 0 <= i < 26 => (65 + i) as char)
    ensures LOWER == seq(26, i requires 0 <= i < 26 => (97 + i) as char)
    ensures DIGITS == seq(10, i requires 0 <= i < 10 => (48 + i) as char)
  {
  }

  /** The letters are those of the standard. */
  lemma LetterIsStandard(v: Six)
    ensures |ALPHABET| == 64 && Letter(v) == ALPHABET[v]
  {
    RowsAreConsecutive();
    assert v < 26 ==> ALPHABET[v] == UPPER[v];
    assert 26 <= v < 52 ==> ALPHABET[v] == LOWER[v - 26];
    assert 52 <= v < 62 ==> ALPHABET[v] == DIGITS[v - 52];
  }

  /** The table knows exactly the letters of the standard, by their places. */
  lemma TableIsStandard(c: char)
    ensures Sextet(c) < 64 ==> ALPHABET[Sextet(c)] == c
    ensures Sextet(c) == 64 <==> c !in ALPHABET
  {
    if Sextet(c) < 64 {
      LetterIsStandard(Sextet(c));
    } else if c in ALPHABET {
      var v :| 0 <= v < |ALPHABET| && ALPHABET[v] == c;
      LetterIsStandard(v);
      TableInvertsAlphabet(v);
    }
  }

  /** A group holds the same twenty-four bits as three bytes and as four sextets. */
  lemma GroupKeepsBits(vs: seq<Six>)
    requires |vs| == 4
    ensures var bytes := Group(vs);
            (bytes[0] as int * 256 + bytes[1] as int) * 256 + bytes[2] as int
            == ((vs[0] as int * 64 + vs[1]) * 64 + vs[2]) * 64 + vs[3]
    ensures forall i | 0 <= i < 3 :: Group(vs)[i] as int < 256
  {
  }
}
