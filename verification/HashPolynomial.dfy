/** The string hash without its loop: a polynomial in 33, on 32-bit words. */
module HashPolynomial {
  import opened Hashing

  function Power(k: nat): nat {
    if k == 0 then 1 else 33 * Power(k - 1)
  }

  /** The characters weighted by powers of 33, the last one by one. */
  function Weighted(s: string): nat {
    if s == "" then 0 else s[0] as int * Power(|s| - 1) + Weighted(s[1..])
  }

  lemma {:induction false} WeightedNext(s: string, c: char)
    ensures Weighted(s + [c]) == 33 * Weighted(s) + c as int
  {
    if s == "" {
      assert "" + [c] == [c];
      assert [c][1..] == "" && Power(0) == 1;
    } else {
      var t := s + [c];
      assert t[1..] == s[1..] + [c] && t[0] == s[0];
      WeightedNext(s[1..], c);
      Scales(s[0] as int, Power(|s| - 1));
    }
  }

  lemma Scales(a: nat, b: nat)
    ensures a * (33 * b) == 33 * (a * b)
  {
  }

  /** Cutting to a word early or late is the same. */
  lemma WordNext(a: nat, c: nat)
    ensures (a % WORD * 33 + c) % WORD == (33 * a + c) % WORD
  {
    assert a == a / WORD * WORD + a % WORD;
    assert 33 * a + c == (a % WORD * 33 + c) + 33 * (a / WORD) * WORD;
    WordTurns(a % WORD * 33 + c, 33 * (a / WORD));
  }

  lemma WordTurns(a: nat, turns: nat)
    ensures (a + turns * WORD) % WORD == a % WORD
  {
  }

  /** djb2 is 5381 times 33 to the length, and the weighted characters, modulo two to
      the power of 32. */
  lemma {:induction false} Djb2IsPolynomial(s: string)
    ensures Djb2(s) == (5381 * Power(|s|) + Weighted(s)) % 0x1_0000_0000
  {
    if s != "" {
      var pre, c := s[..|s| - 1], s[|s| - 1];
      Djb2IsPolynomial(pre);
      assert s == pre + [c];
      WeightedNext(pre, c);
      WordNext(5381 * Power(|pre|) + Weighted(pre), c as int);
    }
  }
}
