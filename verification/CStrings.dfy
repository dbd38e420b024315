/** The C library's string searches, on the characters before the terminating
    NUL. */
module CStrings {
  import opened Options

  function Lower(c: char): char {
    if 'A' <= c <= 'Z' then ((c as int) + 32) as char else c
  }

  /** `needle` stands at position `k`. */
  predicate MatchesAt(s: string, needle: string, k: nat) {
    k + |needle| <= |s| && forall i | 0 <= i < |needle| :: s[k + i] == needle[i]
  }

  /** The same, whatever the case of the letters. */
  predicate MatchesNoCaseAt(s: string, needle: string, k: nat) {
    k + |needle| <= |s| && forall i | 0 <= i < |needle| :: Lower(s[k + i]) == Lower(needle[i])
  }

  /** `strstr` from position `from` on: the first occurrence. */
  function Find(s: string, needle: string, from: nat): (r: Option<nat>)
    requires from <= |s|
    ensures r.Some? ==> from <= r.value && r.value + |needle| <= |s|
    decreases |s| - from
  {
    if MatchesAt(s, needle, from) then Some(from)
    else if from == |s| then None
    else Find(s, needle, from + 1)
  }

  /** `strcasestr` from position `from` on. */
  function FindNoCase(s: string, needle: string, from: nat): (r: Option<nat>)
    requires from <= |s|
    ensures r.Some? ==> from <= r.value && r.value + |needle| <= |s|
    decreases |s| - from
  {
    if MatchesNoCaseAt(s, needle, from) then Some(from)
    else if from == |s| then None
    else FindNoCase(s, needle, from + 1)
  }

  /** It is the first occurrence, and there is none if nothing is found. */
  lemma {:induction false} FindIsFirst(s: string, needle: string, from: nat)
    requires from <= |s|
    ensures var r := Find(s, needle, from);
            && (r.Some? ==> MatchesAt(s, needle, r.value))
            && forall k | from <= k < (if r.Some? then r.value else |s| + 1) :: !MatchesAt(s, needle, k)
    decreases |s| - from
  {
    if !MatchesAt(s, needle, from) && from < |s| {
      FindIsFirst(s, needle, from + 1);
    }
  }

  lemma {:induction false} FindNoCaseIsFirst(s: string, needle: string, from: nat)
    requires from <= |s|
    ensures var r := FindNoCase(s, needle, from);
            && (r.Some? ==> MatchesNoCaseAt(s, needle, r.value))
            && forall k | from <= k < (if r.Some? then r.value else |s| + 1) :: !MatchesNoCaseAt(s, needle, k)
    decreases |s| - from
  {
    if !MatchesNoCaseAt(s, needle, from) && from < |s| {
      FindNoCaseIsFirst(s, needle, from + 1);
    }
  }

  /** `strchr`: the position of the first `c`, or the length. */
  function IndexOf(s: string, c: char): (i: nat)
    ensures i <= |s| && (i < |s| ==> s[i] == c)
    ensures forall j | 0 <= j < i :: s[j] != c
  {
    if s == "" || s[0] == c then 0 else 1 + IndexOf(s[1..], c)
  }

  /** The C string in a buffer: everything before the first NUL. */
  function Terminated(s: string): string {
    s[..IndexOf(s, '\0')]
  }

  // ---------- Spellings ----------

  /** The same character, or the other case of the same letter. */
  predicate SameLetter(c: char, d: char) {
    || c == d
    || ('A' <= c <= 'Z' && d as int == c as int + 32)
    || ('A' <= d <= 'Z' && c as int == d as int + 32)
  }

  /** A spelling of the word at position `k`, in whatever case. */
  predicate SpelledAt(s: string, word: string, k: nat) {
    k + |word| <= |s| && forall i | 0 <= i < |word| :: SameLetter(s[k + i], word[i])
  }

  lemma LowerIff(c: char, d: char)
    ensures Lower(c) == Lower(d) <==> SameLetter(c, d)
  {
  }

  lemma MatchesIsSpelled(s: string, word: string, k: nat)
    ensures MatchesNoCaseAt(s, word, k) <==> SpelledAt(s, word, k)
  {
    forall i | 0 <= i < |word| && k + |word| <= |s|
      ensures Lower(s[k + i]) == Lower(word[i]) <==> SameLetter(s[k + i], word[i])
    {
      LowerIff(s[k + i], word[i]);
    }
  }

  /** The search finds the first spelling, and nothing if and only if there is
      none. */
  lemma FindsFirstSpelling(s: string, word: string)
    ensures var r := FindNoCase(s, word, 0);
            && (r.Some? ==> SpelledAt(s, word, r.value))
            && forall k: nat | k < (if r.Some? then r.value else |s| + 1) :: !SpelledAt(s, word, k)
  {
    FindNoCaseIsFirst(s, word, 0);
    forall k: nat
      ensures MatchesNoCaseAt(s, word, k) <==> SpelledAt(s, word, k)
    {
      MatchesIsSpelled(s, word, k);
    }
  }

  lemma FirstSpellingIsFound(s: string, word: string, k: nat)
    requires SpelledAt(s, word, k) && forall j: nat | j < k :: !SpelledAt(s, word, j)
    ensures FindNoCase(s, word, 0) == Some(k)
  {
    FindsFirstSpelling(s, word);
  }

  // ---------- Matches that move ----------

  /** A match is found first if nothing before it matches. */
  lemma FindNoCaseIs(s: string, needle: string, k: nat)
    requires MatchesNoCaseAt(s, needle, k) && forall j | 0 <= j < k :: !MatchesNoCaseAt(s, needle, j)
    ensures FindNoCase(s, needle, 0) == Some(k)
  {
    FindNoCaseIsFirst(s, needle, 0);
  }

  lemma FindIs(s: string, needle: string, from: nat, k: nat)
    requires from <= k && MatchesAt(s, needle, k) && forall j | from <= j < k :: !MatchesAt(s, needle, j)
    ensures Find(s, needle, from) == Some(k)
  {
    FindIsFirst(s, needle, from);
  }

  /** What is found at the end of a string is still found first with more behind
      it. */
  lemma FindNoCaseExtends(s: string, needle: string, k: nat, rest: string)
    requires FindNoCase(s, needle, 0) == Some(k) && k + |needle| == |s|
    ensures FindNoCase(s + rest, needle, 0) == Some(k)
  {
    FindNoCaseIsFirst(s, needle, 0);
    forall j | 0 <= j < k
      ensures !MatchesNoCaseAt(s + rest, needle, j)
    {
      assert !MatchesNoCaseAt(s, needle, j);
    }
    FindNoCaseIs(s + rest, needle, k);
  }

  /** The last character of the needle occurs in it once. */
  predicate EndsUniquely(needle: string) {
    needle != "" &&
    forall i | 0 <= i < |needle| - 1 :: Lower(needle[i]) != Lower(needle[|needle| - 1])
  }

  /** Two occurrences of such a needle cannot overlap, so as long as the text before
      it stays, it is still found first at its place. */
  lemma FindNoCaseKept(s: string, t: string, needle: string, at: nat)
    requires EndsUniquely(needle) && FindNoCase(s, needle, 0) == Some(at)
    requires at <= |s| && MatchesNoCaseAt(t, needle, at) && t[..at] == s[..at]
    ensures FindNoCase(t, needle, 0) == Some(at)
  {
    FindNoCaseIsFirst(s, needle, 0);
    forall j | 0 <= j < at
      ensures !MatchesNoCaseAt(t, needle, j)
    {
      assert !MatchesNoCaseAt(s, needle, j);
      assert forall k | 0 <= k < at :: t[k] == t[..at][k] == s[..at][k] == s[k];
      var last := |needle| - 1;
      if j + last >= at && j + last < |t| {
        var m := j + last - at;
        assert Lower(t[at + m]) == Lower(needle[m]);
        assert Lower(t[j + last]) != Lower(needle[last]);
      }
    }
    FindNoCaseIs(t, needle, at);
  }

  /** Without its first character before it, a match is found first. */
  lemma FindFirst(t: string, needle: string, from: nat, k: nat)
    requires needle != "" && from <= k && MatchesAt(t, needle, k)
    requires forall j | from <= j < k :: t[j] != needle[0]
    ensures Find(t, needle, from) == Some(k)
  {
    forall j | from <= j < k
      ensures !MatchesAt(t, needle, j)
    {
      assert t[j + 0] != needle[0];
    }
    FindIs(t, needle, from, k);
  }

  /** A match depends on the text from its place on only. */
  lemma MatchMoves(s: string, t: string, needle: string, k: nat, m: nat)
    requires k <= |s| && m <= |t| && s[k..] == t[m..] && MatchesAt(s, needle, k)
    ensures MatchesAt(t, needle, m)
  {
    forall i | 0 <= i < |needle|
      ensures t[m + i] == needle[i]
    {
      assert t[m + i] == t[m..][i] == s[k..][i] == s[k + i];
    }
  }

  /** The first match stays while the text up to its end does. */
  lemma FindKept(s: string, t: string, needle: string, k: nat)
    requires Find(s, needle, 0) == Some(k) && k + |needle| <= |t| && t[..k + |needle|] == s[..k + |needle|]
    ensures Find(t, needle, 0) == Some(k)
  {
    FindIsFirst(s, needle, 0);
    assert forall j | 0 <= j < k + |needle| :: t[j] == t[..k + |needle|][j] == s[j];
    assert MatchesAt(t, needle, k);
    forall j | 0 <= j < k
      ensures !MatchesAt(t, needle, j)
    {
      assert !MatchesAt(s, needle, j);
    }
    FindIs(t, needle, 0, k);
  }

  lemma Parts(a: string, b: string, c: string)
    ensures (a + b + c)[..|a|] == a && (a + b + c)[|a|..|a| + |b|] == b && (a + b + c)[|a| + |b|..] == c
    ensures (a + b + c)[|a|..] == b + c
  {
  }

  /** A text with a character-free middle part has its next match behind it. */
  lemma FindBehind(s: string, t: string, eol: string, at: nat, end: nat, h: string, k: nat)
    requires eol != "" && at <= end && k == at + |h| <= |t| && end <= |s|
    requires t[at..k] == h && t[k..] == s[end..] && MatchesAt(s, eol, end)
    requires forall i | 0 <= i < |h| :: h[i] != eol[0]
    ensures Find(t, eol, at) == Some(k)
  {
    MatchMoves(s, t, eol, end, k);
    forall j | at <= j < k
      ensures t[j] != eol[0]
    {
      assert t[j] == t[at..k][j - at];
    }
    FindFirst(t, eol, at, k);
  }

  /** A line from `name` to `eol` is replaced by another such line: it is found at
      the same place, and its end is the end of what was written. */
  lemma LineReplaced(s: string, t: string, name: string, eol: string, at: nat, end: nat, h: string, k: nat)
    requires k == at + |h| && EndsUniquely(name) && FindNoCase(s, name, 0) == Some(at) && at <= |s|
    requires eol != "" && Find(s, eol, at) == Some(end) && end <= |s|
    requires MatchesNoCaseAt(h, name, 0) && forall i | 0 <= i < |h| :: h[i] != eol[0]
    requires k <= |t| && t[..at] == s[..at] && t[at..k] == h && t[k..] == s[end..]
    ensures FindNoCase(t, name, 0) == Some(at) && Find(t, eol, at) == Some(k)
  {
    MatchInside(t, h, name, at);
    FindNoCaseKept(s, t, name, at);
    FindIsFirst(s, eol, at);
    FindBehind(s, t, eol, at, end, h, k);
  }

  lemma MatchInside(t: string, h: string, needle: string, at: nat)
    requires at + |h| <= |t| && t[at..at + |h|] == h && MatchesNoCaseAt(h, needle, 0)
    ensures MatchesNoCaseAt(t, needle, at)
  {
    forall i | 0 <= i < |needle|
      ensures Lower(t[at + i]) == Lower(needle[i])
    {
      assert t[at + i] == t[at..at + |h|][i] == h[0 + i];
    }
  }
}
