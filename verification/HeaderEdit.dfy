/** The two header editors of `compression.c`: on text, and in place in a
    NUL-terminated buffer. */
module HeaderEdit {
  import opened CStrings
  import opened Options

  const CRLF := "\r\n"
  const CONTENT_LENGTH := "Content-Length:"
  const CONTENT_ENCODING := "Content-Encoding:"
  const SIZE_MAX: nat := 0xffff_ffff_ffff_ffff

  // ---------- Decimal numbers ----------

  function Digit(d: nat): char
    requires d < 10
  {
    (48 + d) as char
  }

  predicate IsDigit(c: char) {
    '0' <= c <= '9'
  }

  /** `%zu`. */
  function Decimal(n: nat): (s: string)
    ensures s != "" && forall i | 0 <= i < |s| :: IsDigit(s[i])
  {
    if n < 10 then [Digit(n)] else Decimal(n / 10) + [Digit(n % 10)]
  }

  /** The number that a text starts with, read from the left, after `acc`. */
  function ReadNumber(s: string, acc: nat): nat {
    if s == "" || !IsDigit(s[0]) then acc else ReadNumber(s[1..], acc * 10 + (s[0] as int - 48))
  }

  /** Reading digits and then more text. */
  lemma {:induction false} ReadOn(a: string, b: string, acc: nat)
    requires forall i | 0 <= i < |a| :: IsDigit(a[i])
    ensures ReadNumber(a + b, acc) == ReadNumber(b, ReadNumber(a, acc))
  {
    if a == "" {
      assert a + b == b;
    } else {
      assert (a + b)[1..] == a[1..] + b;
      ReadOn(a[1..], b, acc * 10 + (a[0] as int - 48));
    }
  }

  lemma {:induction false} DecimalReadsBack(n: nat)
    ensures ReadNumber(Decimal(n), 0) == n
  {
    if n >= 10 {
      DecimalReadsBack(n / 10);
      ReadOn(Decimal(n / 10), [Digit(n % 10)], 0);
    }
  }

  /** It is the shortest such text: no zero in front. */
  lemma {:induction false} DecimalIsShortest(n: nat)
    ensures Decimal(n)[0] == '0' ==> n == 0 && |Decimal(n)| == 1
  {
    if n >= 10 {
      DecimalIsShortest(n / 10);
    }
  }

  /** A number below a power of ten has at most so many digits. */
  lemma {:induction false} DecimalLength(n: nat, digits: nat, bound: nat)
    requires digits > 0 && n < bound && bound == Power10(digits)
    ensures |Decimal(n)| <= digits
  {
    if digits > 1 {
      if n >= 10 {
        DecimalLength(n / 10, digits - 1, bound / 10);
      }
    }
  }

  function Power10(k: nat): nat {
    if k == 0 then 1 else 10 * Power10(k - 1)
  }

  // ---------- Content-Length, on text ----------

  function LengthHeader(n: nat): string {
    CONTENT_LENGTH + " " + Decimal(n)
  }

  function Spaces(k: nat): (s: string)
    ensures |s| == k && forall i | 0 <= i < k :: s[i] == ' '
  {
    seq(k, _ => ' ')
  }

  /** The header, padded with spaces to the width if it is shorter. */
  function Padded(header: string, width: nat): string {
    header + Spaces(if |header| <= width then width - |header| else 0)
  }

  /** Result code and text of `compression_update_content_length`. */
  function Updated(s: string, n: nat): (int, string) {
    var at := FindNoCase(s, CONTENT_LENGTH, 0);
    if at.None? then (0, s) else
    var end := Find(s, CRLF, at.value);
    if end.None? then (-1, s) else
    (0, s[..at.value] + Padded(LengthHeader(n), end.value - at.value) + s[end.value..])
  }

  /** The value a reader finds: behind the first such header, spaces skipped. */
  function ReadLength(s: string): Option<nat> {
    var at := FindNoCase(s, CONTENT_LENGTH, 0);
    if at.None? then None else Some(ReadNumber(SkipBlanks(s[at.value + |CONTENT_LENGTH|..]), 0))
  }

  function SkipBlanks(s: string): string {
    if s != "" && s[0] == ' ' then SkipBlanks(s[1..]) else s
  }

  /** Where the header stands and ends; nothing to say without one. */
  predicate HeaderAt(s: string, at: nat, end: nat) {
    FindNoCase(s, CONTENT_LENGTH, 0) == Some(at) && at <= |s| && Find(s, CRLF, at) == Some(end)
  }

  /** The written header starts with the name and has no line end in it. */
  lemma PaddedCharacters(n: nat, width: nat)
    ensures var h := Padded(LengthHeader(n), width);
            && |h| >= width && MatchesNoCaseAt(h, CONTENT_LENGTH, 0)
            && forall i | 0 <= i < |h| :: h[i] != '\r'
  {
    var h := Padded(LengthHeader(n), width);
    assert forall i | 0 <= i < 15 :: h[i] == CONTENT_LENGTH[i];
    assert h[15] == ' ';
    assert forall i | 16 <= i < |LengthHeader(n)| :: h[i] == Decimal(n)[i - 16];
    assert forall i | |LengthHeader(n)| <= i < |h| :: h[i] == ' ';
  }

  lemma UpdatedText(s: string, n: nat, at: nat, end: nat)
    requires HeaderAt(s, at, end)
    ensures end <= |s| && at <= end
    ensures Updated(s, n) == (0, s[..at] + Padded(LengthHeader(n), end - at) + s[end..])
  {
  }

  lemma NameEndsUniquely()
    ensures EndsUniquely(CONTENT_LENGTH)
  {
  }

  /** Any line of that name without a line end in it can take the header's place. */
  lemma HeaderReplaced(s: string, h: string, at: nat, end: nat, k: nat)
    requires HeaderAt(s, at, end) && at <= end <= |s| && k == at + |h|
    requires MatchesNoCaseAt(h, CONTENT_LENGTH, 0) && forall i | 0 <= i < |h| :: h[i] != CRLF[0]
    ensures HeaderAt(s[..at] + h + s[end..], at, k)
  {
    NameEndsUniquely();
    Parts(s[..at], h, s[end..]);
    LineReplaced(s, s[..at] + h + s[end..], CONTENT_LENGTH, CRLF, at, end, h, k);
  }

  /** After the update the header stands where it stood and ends behind what was
      written. */
  lemma UpdateKeepsPlace(s: string, n: nat, at: nat, end: nat) returns (end': nat)
    requires HeaderAt(s, at, end)
    ensures end' == at + |Padded(LengthHeader(n), end - at)| && HeaderAt(Updated(s, n).1, at, end')
  {
    var h := Padded(LengthHeader(n), end - at);
    end' := at + |h|;
    UpdatedText(s, n, at, end);
    PaddedCharacters(n, end - at);
    HeaderReplaced(s, h, at, end, end');
  }

  lemma SkipOneBlank(s: string)
    requires s != "" && s[0] != ' '
    ensures SkipBlanks(" " + s) == s
  {
    assert (" " + s)[1..] == s;
  }

  lemma DecimalEnds(n: nat, rest: string)
    requires rest == "" || !IsDigit(rest[0])
    ensures ReadNumber(Decimal(n) + rest, 0) == n
  {
    ReadOn(Decimal(n), rest, 0);
    DecimalReadsBack(n);
  }

  /** A number between a blank and something that is no digit is read back. */
  lemma NumberReadsBack(n: nat, rest: string)
    requires rest == "" || !IsDigit(rest[0])
    ensures ReadNumber(SkipBlanks(" " + (Decimal(n) + rest)), 0) == n
  {
    assert (Decimal(n) + rest)[0] == Decimal(n)[0];
    SkipOneBlank(Decimal(n) + rest);
    DecimalEnds(n, rest);
  }

  /** The written header, read behind its name up to what follows the line. */
  lemma PaddedReadsBack(n: nat, width: nat, tail: string)
    requires tail != "" && tail[0] == '\r'
    ensures |Padded(LengthHeader(n), width)| >= 15
    ensures ReadNumber(SkipBlanks(Padded(LengthHeader(n), width)[15..] + tail), 0) == n
  {
    var blanks := Spaces(if |LengthHeader(n)| <= width then width - |LengthHeader(n)| else 0);
    assert Padded(LengthHeader(n), width)[15..] + tail == " " + (Decimal(n) + (blanks + tail));
    assert blanks == "" ==> (blanks + tail)[0] == '\r';
    assert blanks != "" ==> (blanks + tail)[0] == ' ';
    NumberReadsBack(n, blanks + tail);
  }

  /** Re-reading gives the new length, whether the header was padded or the rest
      shifted. */
  lemma UpdatedLengthReadsBack(s: string, n: nat, at: nat, end: nat)
    requires HeaderAt(s, at, end)
    ensures Updated(s, n).0 == 0 && ReadLength(Updated(s, n).1) == Some(n)
  {
    var h := Padded(LengthHeader(n), end - at);
    UpdatedText(s, n, at, end);
    var end' := UpdateKeepsPlace(s, n, at, end);
    StartsWithLineEnd(s, at, end);
    PaddedReadsBack(n, end - at, s[end..]);
    ReadBehind(s[..at], h, s[end..]);
  }

  lemma StartsWithLineEnd(s: string, at: nat, end: nat)
    requires HeaderAt(s, at, end)
    ensures end < |s| && s[end..][0] == '\r'
  {
    FindIsFirst(s, CRLF, at);
    assert s[end + 0] == CRLF[0];
  }

  lemma ReadBehind(a: string, h: string, c: string)
    requires |h| >= 15
    ensures (a + h + c)[|a| + 15..] == h[15..] + c
  {
  }

  /** Everything before the header and from its line end on is kept. */
  lemma UpdatePreservesTheRest(s: string, n: nat, at: nat, end: nat) returns (end': nat)
    requires HeaderAt(s, at, end)
    ensures var t := Updated(s, n).1;
            && HeaderAt(t, at, end') && end' == |t| - (|s| - end)
            && t[..at] == s[..at] && t[end'..] == s[end..]
  {
    UpdatedText(s, n, at, end);
    end' := UpdateKeepsPlace(s, n, at, end);
    Parts(s[..at], Padded(LengthHeader(n), end - at), s[end..]);
  }

  /** Updating twice is updating once. */
  lemma UpdateIsIdempotent(s: string, n: nat)
    ensures Updated(Updated(s, n).1, n) == Updated(s, n)
  {
    var at := FindNoCase(s, CONTENT_LENGTH, 0);
    if at.Some? && Find(s, CRLF, at.value).Some? {
      var a, end := at.value, Find(s, CRLF, at.value).value;
      var h := Padded(LengthHeader(n), end - a);
      var end' := UpdatePreservesTheRest(s, n, a, end);
      UpdatedText(s, n, a, end);
      UpdatedText(Updated(s, n).1, n, a, end');
      assert Padded(LengthHeader(n), |h|) == h;
    }
  }

  predicate LineEndAt(s: string, k: nat) {
    k + 1 < |s| && s[k] == '\r' && s[k + 1] == '\n'
  }

  /** The first line end from `from` on is at `end`. */
  predicate FirstLineEnd(s: string, from: nat, end: nat) {
    from <= end && LineEndAt(s, end) && forall k | from <= k < end :: !LineEndAt(s, k)
  }

  lemma LineEndsAreFound(s: string, from: nat)
    requires from <= |s|
    ensures forall end: nat :: FirstLineEnd(s, from, end) ==> Find(s, CRLF, from) == Some(end)
    ensures (forall k: nat | from <= k :: !LineEndAt(s, k)) ==> Find(s, CRLF, from) == None
  {
    forall k: nat
      ensures MatchesAt(s, CRLF, k) <==> LineEndAt(s, k)
    {
      assert k + 1 < |s| && MatchesAt(s, CRLF, k) ==> s[k + 0] == CRLF[0] && s[k + 1] == CRLF[1];
    }
    FindIsFirst(s, CRLF, from);
    forall end: nat | FirstLineEnd(s, from, end)
      ensures Find(s, CRLF, from) == Some(end)
    {
      FindIs(s, CRLF, from, end);
    }
  }

  /** Without a header in any spelling the update does nothing. */
  lemma NoHeaderNoUpdate(s: string, n: nat)
    requires forall k: nat :: !SpelledAt(s, "Content-Length:", k)
    ensures Updated(s, n) == (0, s)
  {
    FindsFirstSpelling(s, CONTENT_LENGTH);
  }

  /** At the first header, in any spelling, it fails without a line end behind it; else
      it writes the new header up to that line end, with spaces if something is left. */
  lemma UpdatedIsExactly(s: string, n: nat, at: nat)
    requires SpelledAt(s, "Content-Length:", at) && forall k: nat | k < at :: !SpelledAt(s, "Content-Length:", k)
    ensures (forall k: nat | at <= k :: !LineEndAt(s, k)) ==> Updated(s, n) == (-1, s)
    ensures forall end: nat | FirstLineEnd(s, at, end) ::
              var line := "Content-Length: " + Decimal(n);
              Updated(s, n) ==
              (0, s[..at] + line + Spaces(if |line| < end - at then end - at - |line| else 0) + s[end..])
  {
    FirstSpellingIsFound(s, CONTENT_LENGTH, at);
    LineEndsAreFound(s, at);
    forall end: nat | FirstLineEnd(s, at, end)
      ensures Updated(s, n) == (0, s[..at] + Padded(LengthHeader(n), end - at) + s[end..])
    {
      UpdatedText(s, n, at, end);
    }
    LengthLine(s, n, at);
  }

  lemma LengthLine(s: string, n: nat, at: nat)
    requires at <= |s|
    ensures forall end: nat | at <= end <= |s| ::
              var line := "Content-Length: " + Decimal(n);
              s[..at] + Padded(LengthHeader(n), end - at) + s[end..] ==
              s[..at] + line + Spaces(if |line| < end - at then end - at - |line| else 0) + s[end..]
  {
    assert LengthHeader(n) == "Content-Length: " + Decimal(n);
  }

  // ---------- Content-Encoding, on text ----------

  /** `snprintf` into 128 bytes keeps at most 127 characters. */
  function EncodingLine(encoding: string): string {
    var line := CONTENT_ENCODING + " " + encoding + CRLF;
    if |line| <= 127 then line else line[..127]
  }

  /** Result code and text of `compression_add_encoding_header`. */
  function WithEncoding(s: string, size: nat, encoding: string): (int, string) {
    var crlf := Find(s, CRLF, 0);
    if crlf.None? then (-1, s)
    else if FindNoCase(s, CONTENT_ENCODING, 0).Some? then (0, s)
    else if |s| + |EncodingLine(encoding)| >= size then (-1, s)
    else (0, s[..crlf.value + 2] + EncodingLine(encoding) + s[crlf.value + 2..])
  }

  /** What the call does: without a line end it fails; with a header in any spelling it
      does nothing; else it puts the line, or its first 127 characters, behind the first
      line end, unless the result and its terminator do not fit. */
  lemma WithEncodingIsExactly(s: string, size: nat, encoding: string, end: nat)
    ensures (forall k: nat :: !LineEndAt(s, k)) ==> WithEncoding(s, size, encoding) == (-1, s)
    ensures FirstLineEnd(s, 0, end) ==>
              var line := "Content-Encoding: " + encoding + "\r\n";
              var written := if |line| > 127 then line[..127] else line;
              WithEncoding(s, size, encoding) ==
              if exists k: nat :: SpelledAt(s, "Content-Encoding:", k) then (0, s)
              else if |s| + |written| + 1 > size then (-1, s)
              else (0, s[..end + 2] + written + s[end + 2..])
  {
    LineEndsAreFound(s, 0);
    FindsFirstSpelling(s, CONTENT_ENCODING);
    assert CONTENT_ENCODING + " " == "Content-Encoding: ";
    if k: nat :| SpelledAt(s, "Content-Encoding:", k) {
      assert k <= |s|;
    }
  }

  /** A successful call leaves the text with such a header and its first line as it
      was, so no later call changes it, whatever encoding it names. */
  lemma EncodingIsAddedOnce(s: string, size: nat, encoding: string, size': nat, encoding': string)
    requires WithEncoding(s, size, encoding).0 == 0
    ensures var t := WithEncoding(s, size, encoding).1;
            && Find(t, CRLF, 0) == Find(s, CRLF, 0)
            && FindNoCase(t, CONTENT_ENCODING, 0).Some?
            && WithEncoding(t, size', encoding') == (0, t)
  {
    if FindNoCase(s, CONTENT_ENCODING, 0).None? {
      LineInserted(s, Find(s, CRLF, 0).value, encoding);
    }
  }

  lemma LineInserted(s: string, crlf: nat, encoding: string)
    requires Find(s, CRLF, 0) == Some(crlf)
    ensures var t := s[..crlf + 2] + EncodingLine(encoding) + s[crlf + 2..];
            Find(t, CRLF, 0) == Some(crlf) && FindNoCase(t, CONTENT_ENCODING, 0).Some?
  {
    var line := EncodingLine(encoding);
    var t := s[..crlf + 2] + line + s[crlf + 2..];
    Parts(s[..crlf + 2], line, s[crlf + 2..]);
    FindKept(s, t, CRLF, crlf);
    assert line[..17] == CONTENT_ENCODING;
    forall i | 0 <= i < 17
      ensures t[crlf + 2 + i] == CONTENT_ENCODING[i]
    {
      assert t[crlf + 2 + i] == t[crlf + 2..crlf + 2 + |line|][i] == line[..17][i];
    }
    FindNoCaseIsFirst(t, CONTENT_ENCODING, 0);
    assert MatchesNoCaseAt(t, CONTENT_ENCODING, crlf + 2);
  }

  /** The line is written whole exactly when the encoding has at most 107
      characters; a longer one loses its line end. */
  lemma EncodingLineIsWholeIff(encoding: string)
    requires '\n' !in encoding
    ensures EncodingLine(encoding)[|EncodingLine(encoding)| - 1] == '\n' <==> |encoding| <= 107
  {
  }

  // ---------- In place ----------

  /** `memmove`. */
  method MemMove(a: array<char>, dst: nat, src: nat, n: nat)
    requires dst + n <= a.Length && src + n <= a.Length
    modifies a
    ensures a[..] == old(a[..])[..dst] + old(a[..])[src..src + n] + old(a[..])[dst + n..]
  {
    forall i | 0 <= i < n {
      a[dst + i] := a[src + i];
    }
  }

  /** `memcpy` from a string. */
  method MemCpy(a: array<char>, dst: nat, s: string)
    requires dst + |s| <= a.Length
    modifies a
    ensures a[..] == old(a[..])[..dst] + s + old(a[..])[dst + |s|..]
  {
    forall i | 0 <= i < |s| {
      a[dst + i] := s[i];
    }
  }

  /** A buffer holds its text, a NUL, and anything. */
  predicate Holds(buffer: string, s: string) {
    |s| < |buffer| && buffer[..|s|] == s && buffer[|s|] == '\0' && '\0' !in s
  }

  lemma HoldsItsText(buffer: string)
    requires '\0' in buffer
    ensures Holds(buffer, Terminated(buffer))
  {
    var i := IndexOf(buffer, '\0');
    assert forall j | 0 <= j < i :: buffer[j] != '\0';
    var k :| 0 <= k < |buffer| && buffer[k] == '\0';
  }

  lemma TextIsHeld(buffer: string, s: string)
    requires Holds(buffer, s)
    ensures Terminated(buffer) == s
  {
    assert forall j | 0 <= j < |s| :: buffer[j] == buffer[..|s|][j] && s[j] in s;
  }

  /** Replacing `s[at..end]` by a text as long leaves the rest in place. */
  lemma HoldsOverwritten(buffer: string, after: string, s: string, at: nat, end: nat, h: string)
    requires Holds(buffer, s) && at <= end <= |s| && |h| == end - at && '\0' !in h
    requires after == buffer[..at] + h + buffer[end..]
    ensures Holds(after, s[..at] + h + s[end..])
  {
    assert buffer[..at] == s[..at] && buffer[end..][..|s| - end] == s[end..];
    assert after[..|s|] == s[..at] + h + s[end..];
  }

  /** Moving the rest of the text and its NUL behind a longer `h`. */
  lemma HoldsShifted(buffer: string, after: string, s: string, at: nat, end: nat, h: string)
    requires Holds(buffer, s) && at <= end <= |s| && '\0' !in h
    requires at + |h| + |s| - end < |after|
    requires after[..at] == buffer[..at] && after[at..at + |h|] == h
    requires after[at + |h|..at + |h| + |s| - end + 1] == buffer[end..|s| + 1]
    ensures Holds(after, s[..at] + h + s[end..])
  {
    var t, k := s[..at] + h + s[end..], at + |h|;
    var moved := after[k..k + |s| - end + 1];
    assert buffer[..at] == s[..at];
    assert buffer[..|s|][end..] == s[end..];
    assert moved[..|s| - end] == buffer[end..|s| + 1][..|s| - end] == buffer[..|s|][end..];
    assert moved[|s| - end] == buffer[|s|];
    assert after[k..k + |s| - end] == s[end..];
    assert after[..|t|] == after[..at] + after[at..k] + after[k..|t|];
    assert after[|t|] == moved[|s| - end];
  }

  /** Opens a gap with `memmove` and fills it with `memcpy`. */
  method Shift(response: array<char>, s: string, at: nat, end: nat, h: string)
    requires Holds(response[..], s) && at <= end <= |s| && |h| >= end - at && '\0' !in h
    requires |s| + |h| - (end - at) < response.Length
    modifies response
    ensures Holds(response[..], s[..at] + h + s[end..])
  {
    ghost var was := response[..];
    MemMove(response, at + |h|, end, |s| - end + 1);
    ghost var moved := response[..];
    assert moved[at + |h|..at + |h| + |s| - end + 1] == was[end..|s| + 1];
    MemCpy(response, at, h);
    ghost var after := response[..];
    assert after[at + |h|..] == moved[at + |h|..];
    assert after[at + |h|..at + |h| + |s| - end + 1] == moved[at + |h|..at + |h| + |s| - end + 1];
    HoldsShifted(was, after, s, at, end, h);
  }

  /** Overwrites with `memcpy` and fills up with spaces. */
  method Pad(response: array<char>, ghost s: string, at: nat, end: nat, h: string)
    requires Holds(response[..], s) && at <= end <= |s| && |h| <= end - at && '\0' !in h
    modifies response
    ensures Holds(response[..], s[..at] + Padded(h, end - at) + s[end..])
  {
    ghost var was := response[..];
    MemCpy(response, at, h);
    ghost var copied := response[..];
    for i := |h| to end - at
      invariant forall k | 0 <= k < response.Length ::
                  response[k] == if at + |h| <= k < at + i then ' ' else copied[k]
    {
      response[at + i] := ' ';
    }
    assert response[..] == was[..at] + Padded(h, end - at) + was[end..];
    HoldsOverwritten(was, response[..], s, at, end, Padded(h, end - at));
  }

  /** `compression_add_encoding_header`. */
  method AddEncodingHeader(response: array<char>, size: nat, encoding: string) returns (rc: int)
    requires '\0' in response[..] && size <= response.Length && '\0' !in encoding
    modifies response
    ensures (rc, Terminated(response[..])) == WithEncoding(old(Terminated(response[..])), size, encoding)
  {
    HoldsItsText(response[..]);
    var s := Terminated(response[..]);
    var headerStart := Find(s, CRLF, 0);
    if headerStart.None? {
      return -1;
    }
    if FindNoCase(s, CONTENT_ENCODING, 0).Some? {
      return 0;
    }
    var header := EncodingLine(encoding);
    if |s| + |header| >= size {
      return -1;
    }
    var at := headerStart.value + 2;
    Shift(response, s, at, at, header);
    TextIsHeld(response[..], s[..at] + header + s[at..]);
    return 0;
  }

  /** `compression_update_content_length`; the caller must leave room for the text
      to grow, since the function is not told the size of the buffer. */
  method UpdateContentLength(response: array<char>, newLength: nat) returns (rc: int)
    requires '\0' in response[..] && newLength <= SIZE_MAX
    requires |Updated(Terminated(response[..]), newLength).1| < response.Length
    modifies response
    ensures (rc, Terminated(response[..])) == Updated(old(Terminated(response[..])), newLength)
  {
    HoldsItsText(response[..]);
    var s := Terminated(response[..]);
    var contentLength := FindNoCase(s, CONTENT_LENGTH, 0);
    if contentLength.None? {
      return 0;
    }
    var at := contentLength.value;
    var lineEnd := Find(s, CRLF, at);
    if lineEnd.None? {
      return -1;
    }
    var end := lineEnd.value;
    var newHeader := LengthHeader(newLength);
    if |newHeader| <= end - at {
      Pad(response, s, at, end, newHeader);
    } else {
      assert Padded(newHeader, end - at) == newHeader;
      Shift(response, s, at, end, newHeader);
    }
    TextIsHeld(response[..], s[..at] + Padded(newHeader, end - at) + s[end..]);
    return 0;
  }

  /** The written header fits the 128 bytes it is printed into. */
  lemma LengthHeaderFits(n: nat)
    requires n <= SIZE_MAX
    ensures |LengthHeader(n)| <= 36
  {
    assert Power10(2) == 100 && Power10(4) == 1_0000 && Power10(6) == 100_0000 && Power10(8) == 1_0000_0000;
    assert Power10(10) == 100_0000_0000 && Power10(12) == 1_0000_0000_0000 && Power10(14) == 100_0000_0000_0000;
    assert Power10(16) == 1_0000_0000_0000_0000 && Power10(18) == 100_0000_0000_0000_0000;
    DecimalLength(n, 20, Power10(20));
  }
}
