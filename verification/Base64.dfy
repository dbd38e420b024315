/** The decoder of `auth.c`, and the encoding of section 4 of RFC 4648 that it
    inverts. A byte is a character below 256. */
module Base64 {
  import opened Options

  // ---------- The alphabet ----------

  /** The decoding table: the value of an alphabet character, 64 for others. */
  function Sextet(c: char): (v: int)
    ensures 0 <= v <= 64
  {
    if 'A' <= c <= 'Z' then c as int - 65
    else if 'a' <= c <= 'z' then c as int - 71
    else if '0' <= c <= '9' then c as int + 4
    else if c == '+' then 62
    else if c == '/' then 63
    else 64
  }

  /** The alphabet of the encoding. */
  function Letter(v: Six): char {
    if v < 26 then (v + 65) as char
    else if v < 52 then (v + 71) as char
    else if v < 62 then (v - 4) as char
    else if v == 62 then '+' else '/'
  }

  lemma TableInvertsAlphabet(v: Six)
    ensures Sextet(Letter(v)) == v && Letter(v) != '=' && Letter(v) != ' '
  {
  }

  // ---------- Decoding, on values ----------

  type Six = v: int | 0 <= v < 64

  /** The values of the alphabet characters before the first `=`. */
  function Sextets(input: string): (vs: seq<Six>)
  {
    if input == "" || input[0] == '=' then []
    else if Sextet(input[0]) == 64 then Sextets(input[1..])
    else [Sextet(input[0])] + Sextets(input[1..])
  }

  /** Shifting two sextets left and right and joining them, in bytes. */
  function First(a: Six, b: Six): char {
    (a * 4 + b / 16) as char
  }

  function Second(b: Six, c: Six): char {
    (b % 16 * 16 + c / 4) as char
  }

  function Third(c: Six, d: Six): char {
    (c % 4 * 64 + d) as char
  }

  function Group(vs: seq<Six>): (bytes: string)
    requires |vs| >= 4
    ensures |bytes| == 3
  {
    [First(vs[0], vs[1]), Second(vs[1], vs[2]), Third(vs[2], vs[3])]
  }

  /** Two bytes from three sextets, one from two. */
  function Partial(vs: seq<Six>): string
    requires |vs| < 4
  {
    if |vs| == 3 then [First(vs[0], vs[1]), Second(vs[1], vs[2])]
    else if |vs| == 2 then [First(vs[0], vs[1])]
    else ""
  }

  /** Three bytes from each four sextets, and what the last few give. */
  function Decoded(vs: seq<Six>): string {
    if |vs| < 4 then Partial(vs) else Group(vs) + Decoded(vs[4..])
  }

  /** What the capacity checks amount to for `n` sextets. */
  predicate Fits(n: nat, size: nat) {
    n == 0 || n / 4 * 3 + n % 4 < size
  }

  lemma {:induction false} DecodedConcat(a: seq<Six>, b: seq<Six>)
    requires |a| % 4 == 0
    ensures Decoded(a + b) == Decoded(a) + Decoded(b)
  {
    if a == [] {
      assert a + b == b;
    } else {
      var ab := a + b;
      DecodedConcat(a[4..], b);
      assert ab[4..] == a[4..] + b && Group(ab) == Group(a);
      assert Decoded(ab) == Group(a) + (Decoded(a[4..]) + Decoded(b));
    }
  }

  lemma {:induction false} SextetsConcat(a: string, b: string)
    requires '=' !in a
    ensures Sextets(a + b) == Sextets(a) + Sextets(b)
  {
    if a == "" {
      assert a + b == b;
    } else {
      assert (a + b)[1..] == a[1..] + b;
      SextetsConcat(a[1..], b);
    }
  }

  // ---------- The byte operations ----------

  lemma Increment(x: bv8)
    requires x < 255
    ensures (x + 1) as int == x as int + 1
  {
  }

  lemma MoveOne(x: bv8, y: bv8, x': bv8, y': bv8)
    requires x <= 255 - y && y != 0 && x' == x + 1 && y' == y - 1
    ensures x' <= 255 - y' && x' + y' == x + y
  {
  }

  lemma Neighbours(x: bv8, y: bv8, x': bv8, y': bv8)
    requires x <= 255 - y && y != 0 && x' == x + 1 && y' == y - 1
    ensures x' as int == x as int + 1 && y' as int == y as int - 1
  {
    Increment(x);
    Increment(y');
  }

  lemma AddZero(x: bv8, y: bv8)
    requires y == 0
    ensures x + y == x && y as int == 0
  {
  }

  /** Without overflow, a sum of bytes is the sum of their values. */
  lemma {:induction false} SumOfBytes(x: bv8, y: bv8, n: nat, sum: bv8)
    requires x <= 255 - y && sum == x + y && n == y as int
    ensures sum as int == x as int + n
    decreases n
  {
    if y == 0 {
      AddZero(x, y);
    } else {
      var x', y' := x + 1, y - 1;
      MoveOne(x, y, x', y');
      Neighbours(x, y, x', y');
      SumOfBytes(x', y', n - 1, sum);
    }
  }

  /** Shifts as products, quotients and remainders. */
  lemma ShiftsAreProducts(v: bv8)
    requires v < 64
    ensures v as int < 64
    ensures (v << 2) as int == v as int * 4 && (v >> 4) as int == v as int / 16
    ensures (v << 4) as int == v as int % 16 * 16 && (v >> 2) as int == v as int / 4
    ensures (v << 6) as int == v as int % 4 * 64
  {
  }

  /** Bytes without a common bit are joined by adding them. */
  lemma JoinedByAdding(high: bv8, low: bv8)
    requires high & low == 0
    ensures high | low == high + low && high <= 255 - low
  {
  }

  lemma NoCommonBits(v: bv8, w: bv8)
    requires v < 64 && w < 64
    ensures (v << 2) & (w >> 4) == 0 && (v << 4) & (w >> 2) == 0 && (v << 6) & w == 0
  {
  }

  lemma JoinedIsSum(high: bv8, low: bv8)
    requires high & low == 0
    ensures (high | low) as int == high as int + low as int
  {
    JoinedByAdding(high, low);
    SumOfBytes(high, low, low as int, high | low);
  }

  /** The products, remainders and sums above are the decoder's shifts and ors. */
  lemma ByteOperations(a: bv8, b: bv8, c: bv8, d: bv8)
    requires a < 64 && b < 64 && c < 64 && d < 64
    ensures a as int < 64 && b as int < 64 && c as int < 64 && d as int < 64
    ensures ((a << 2) | (b >> 4)) as int == First(a as int, b as int) as int
    ensures ((b << 4) | (c >> 2)) as int == Second(b as int, c as int) as int
    ensures ((c << 6) | d) as int == Third(c as int, d as int) as int
  {
    ShiftsAreProducts(a);
    ShiftsAreProducts(b);
    ShiftsAreProducts(c);
    ShiftsAreProducts(d);
    NoCommonBits(a, b);
    NoCommonBits(b, c);
    NoCommonBits(c, d);
    JoinedIsSum(a << 2, b >> 4);
    JoinedIsSum(b << 4, c >> 2);
    JoinedIsSum(c << 6, d);
  }

  // ---------- base64_decode ----------

  /** The full groups `whole` are decoded into the output; the accumulator holds
      `i` more sextets. */
  ghost predicate Accumulated(whole: seq<Six>, output: array<char>, outputLen: nat, buf: array<Six>, i: nat, size: nat)
    reads output
  {
    && i < 4 == buf.Length && |whole| * 3 == outputLen * 4
    && (outputLen == 0 || outputLen < size) && outputLen <= output.Length
    && output[..outputLen] == Decoded(whole)
  }

  /** Decodes into the first `size` places of the buffer and terminates the result. It
      succeeds exactly when the sextets fit. It writes at `size` or beyond exactly when
      the size is zero and there is nothing to decode: the terminator is not checked,
      and goes to the first place of the buffer, which must exist then. */
  method Decode(input: string, output: array<char>, size: nat) returns (length: Option<nat>)
    requires size <= output.Length && (output.Length > 0 || Sextets(input) != [])
    modifies output
    ensures length.Some? <==> Fits(|Sextets(input)|, size)
    ensures length.Some? ==>
              && length.value < output.Length
              && output[..length.value] == Decoded(Sextets(input)) && output[length.value] == '\0'
              && (length.value < size <==> size > 0 || Sextets(input) != [])
    ensures forall k | size <= k < output.Length ::
              k > 0 || size > 0 || Sextets(input) != [] ==> output[k] == old(output[k])
  {
    var buf := new Six[4];
    var outputLen: nat, i: nat, pos: nat := 0, 0, 0;
    ghost var seen: seq<Six>, whole: seq<Six> := [], [];
    assert input[0..] == input;
    while pos < |input|
      invariant pos <= |input| && Sextets(input) == seen + Sextets(input[pos..])
      invariant Accumulated(whole, output, outputLen, buf, i, size) && seen == whole + buf[..i]
      invariant forall k | size <= k < output.Length :: output[k] == old(output[k])
    {
      if input[pos] == '=' {
        break;
      }
      var c := Sextet(input[pos]);
      SextetsNext(input, pos, seen);
      pos := pos + 1;
      if c == 64 {
        continue;
      }
      var ok;
      ok, outputLen, i, whole := Accumulate(c, output, outputLen, buf, i, size, whole);
      seen := seen + [c];
      if !ok {
        TooManyNeverFit(|seen|, |Sextets(input)|, size);
        return None;
      }
    }
    SextetsEnd(input, pos, seen);
    if i > 0 && outputLen + i >= size {
      return None;
    }
    length := Finish(output, outputLen, buf, i, size, whole);
  }

  lemma SextetsNext(input: string, pos: nat, seen: seq<Six>)
    requires pos < |input| && input[pos] != '='
    ensures var c := Sextet(input[pos]);
            seen + Sextets(input[pos..])
            == if c == 64 then seen + Sextets(input[pos + 1..]) else seen + [c] + Sextets(input[pos + 1..])
  {
    assert input[pos..][1..] == input[pos + 1..];
  }

  lemma SextetsEnd(input: string, pos: nat, seen: seq<Six>)
    requires pos <= |input| && (pos == |input| || input[pos] == '=')
    ensures seen + Sextets(input[pos..]) == seen
  {
    assert Sextets(input[pos..]) == [];
  }

  lemma TooManyNeverFit(n: nat, more: nat, size: nat)
    requires 0 < n <= more && n % 4 == 0 && n * 3 >= size * 4
    ensures !Fits(more, size)
  {
  }

  /** Takes one more sextet; a full accumulator goes to the output if it fits. */
  method Accumulate(c: Six, output: array<char>, outputLen: nat, buf: array<Six>, i: nat, size: nat,
                    ghost whole: seq<Six>)
    returns (ok: bool, outputLen': nat, i': nat, ghost whole': seq<Six>)
    requires Accumulated(whole, output, outputLen, buf, i, size) && size <= output.Length
    modifies output, buf
    ensures ok ==> Accumulated(whole', output, outputLen', buf, i', size)
    ensures ok ==> whole' + buf[..i'] == whole + old(buf[..i]) + [c]
    ensures !ok ==> (|whole| + i + 1) % 4 == 0 && (|whole| + i + 1) * 3 >= size * 4
    ensures forall k | size <= k < output.Length :: output[k] == old(output[k])
  {
    buf[i] := c;
    i' := i + 1;
    assert buf[..i'] == old(buf[..i]) + [c];
    if i' < 4 {
      return true, outputLen, i', whole;
    }
    if outputLen + 3 >= size {
      return false, outputLen, i', whole;
    }
    PutGroup(output, outputLen, buf, whole);
    assert buf[..] == buf[..i'];
    return true, outputLen + 3, 0, whole + buf[..];
  }

  /** Writes the three bytes of a full accumulator. */
  method PutGroup(output: array<char>, outputLen: nat, buf: array<Six>, ghost whole: seq<Six>)
    requires outputLen + 3 <= output.Length && buf.Length == 4
    requires |whole| % 4 == 0 && output[..outputLen] == Decoded(whole)
    modifies output
    ensures output[..outputLen + 3] == Decoded(whole + buf[..])
    ensures buf[..] == old(buf[..])
    ensures forall k | outputLen + 3 <= k < output.Length :: output[k] == old(output[k])
  {
    DecodedConcat(whole, buf[..]);
    output[outputLen] := First(buf[0], buf[1]);
    output[outputLen + 1] := Second(buf[1], buf[2]);
    output[outputLen + 2] := Third(buf[2], buf[3]);
    assert Decoded(buf[..]) == Group(buf[..]) + Decoded([]);
  }

  /** Writes the bytes of the waiting sextets, one fewer than there are, and the
      terminator. */
  method Finish(output: array<char>, start: nat, buf: array<Six>, i: nat, size: nat, ghost whole: seq<Six>)
    returns (length: Option<nat>)
    requires Accumulated(whole, output, start, buf, i, size)
    requires size <= output.Length && (start + i < size || (start == i == 0 < output.Length))
    modifies output
    ensures length.Some? && length.value < output.Length && (start + i < size ==> length.value < size)
    ensures start == 0 && i == 0 ==> length.value == 0
    ensures output[..length.value] == Decoded(whole + buf[..i]) && output[length.value] == '\0'
    ensures forall k | size <= k < output.Length :: start + i < size || k > 0 ==> output[k] == old(output[k])
  {
    DecodedConcat(whole, buf[..i]);
    var outputLen := start;
    if i >= 2 {
      output[outputLen] := First(buf[0], buf[1]);
      outputLen := outputLen + 1;
    }
    if i >= 3 {
      output[outputLen] := Second(buf[1], buf[2]);
      outputLen := outputLen + 1;
    }
    output[outputLen] := '\0';
    assert Decoded(buf[..i]) == Partial(buf[..i]);
    assert output[..outputLen] == output[..start] + Partial(buf[..i]);
    return Some(outputLen);
  }

  // ---------- The encoder of RFC 4648, section 4 ----------

  predicate Bytes(b: string) {
    forall i | 0 <= i < |b| :: b[i] as int < 256
  }

  /** The four sextets of three bytes. */
  function SplitGroup(x: int, y: int, z: int): (vs: seq<Six>)
    requires 0 <= x < 256 && 0 <= y < 256 && 0 <= z < 256
    ensures |vs| == 4
  {
    [x / 4, x % 4 * 16 + y / 16, y % 16 * 4 + z / 64, z % 64]
  }

  /** The sextets of a byte string; a last group of one or two bytes is filled up
      with zero bits. */
  function Split(b: string): (vs: seq<Six>)
    requires Bytes(b)
    ensures |vs| == |b| / 3 * 4 + (if |b| % 3 == 0 then 0 else |b| % 3 + 1)
  {
    if b == "" then []
    else if |b| == 1 then SplitGroup(b[0] as int, 0, 0)[..2]
    else if |b| == 2 then SplitGroup(b[0] as int, b[1] as int, 0)[..3]
    else SplitGroup(b[0] as int, b[1] as int, b[2] as int) + Split(b[3..])
  }

  function Letters(vs: seq<Six>): (s: string)
    ensures |s| == |vs| && forall i | 0 <= i < |vs| :: s[i] == Letter(vs[i])
  {
    seq(|vs|, i requires 0 <= i < |vs| => Letter(vs[i]))
  }

  function Padding(b: string): string {
    if |b| % 3 == 1 then "==" else if |b| % 3 == 2 then "=" else ""
  }

  function Encode(b: string, padded: bool): string
    requires Bytes(b)
  {
    Letters(Split(b)) + (if padded then Padding(b) else "")
  }

  lemma {:induction false} LettersReadBack(vs: seq<Six>)
    ensures Sextets(Letters(vs)) == vs && '=' !in Letters(vs)
  {
    if vs != [] {
      TableInvertsAlphabet(vs[0]);
      assert Letters(vs)[1..] == Letters(vs[1..]);
      LettersReadBack(vs[1..]);
    }
  }

  /** A group of bytes survives splitting and joining. */
  lemma GroupReadsBack(x: int, y: int, z: int)
    requires 0 <= x < 256 && 0 <= y < 256 && 0 <= z < 256
    ensures Group(SplitGroup(x, y, z)) == [x as char, y as char, z as char]
  {
    var b, c := x % 4 * 16 + y / 16, y % 16 * 4 + z / 64;
    assert b / 16 == x % 4 && b % 16 == y / 16;
    assert c / 4 == y % 16 && c % 4 == z / 64;
  }

  /** Whatever sextets follow, a byte string's own come out as its bytes first. */
  lemma {:induction false} SplitReadsBack(b: string, more: seq<Six>)
    requires Bytes(b)
    ensures b <= Decoded(Split(b) + more)
    ensures Decoded(Split(b)) == b
  {
    if |b| >= 3 {
      var vs := Split(b) + more;
      SplitReadsBack(b[3..], more);
      GroupReadsBack(b[0] as int, b[1] as int, b[2] as int);
      assert Split(b)[4..] == Split(b[3..]) && vs[4..] == Split(b[3..]) + more;
      assert b == b[..3] + b[3..];
      assert Group(vs) == Group(Split(b)) == b[..3];
    } else {
      LastGroupReadsBack(b, more);
    }
  }

  /** The same for the last one or two bytes, whose last sextet has spare bits. */
  lemma LastGroupReadsBack(b: string, more: seq<Six>)
    requires Bytes(b) && |b| < 3
    ensures b <= Decoded(Split(b) + more)
    ensures Decoded(Split(b)) == b
  {
    if |b| > 0 {
      var x, y := b[0] as int, if |b| == 2 then b[1] as int else 0;
      var vs, own := Split(b) + more, SplitGroup(x, y, 0);
      GroupReadsBack(x, y, 0);
      assert vs[0] == own[0] && vs[1] == own[1] && (|b| == 2 ==> vs[2] == own[2]);
      SpareBitsDoNotMatter(x, y, own);
      assert |b| == 1 ==> Decoded(vs)[0] == First(vs[0], vs[1]);
      assert |b| == 2 ==> Decoded(vs)[..2] == [First(vs[0], vs[1]), Second(vs[1], vs[2])];
    }
  }

  lemma SpareBitsDoNotMatter(x: int, y: int, own: seq<Six>)
    requires 0 <= x < 256 && 0 <= y < 256 && own == SplitGroup(x, y, 0)
    ensures First(own[0], own[1]) == x as char && Second(own[1], own[2]) == y as char
  {
  }

  /** The sextets the decoder sees in an encoding with something behind it. */
  lemma EncodingSextets(b: string, padded: bool, tail: string)
    requires Bytes(b)
    ensures Sextets(Encode(b, padded) + tail) ==
            Split(b) + (if padded && |b| % 3 != 0 then [] else Sextets(tail))
  {
    var letters, rest := Letters(Split(b)), (if padded then Padding(b) else "") + tail;
    LettersReadBack(Split(b));
    SextetsConcat(letters, rest);
    assert Encode(b, padded) + tail == letters + rest;
    if padded && |b| % 3 != 0 {
      assert rest[0] == '=';
    } else {
      assert rest == tail;
    }
  }

  /** Decoding an encoding, padded or not, gives the bytes back, and it fits
      exactly when the bytes and one place more do; for whole groups the
      terminator's place is enough. */
  lemma RoundTrip(b: string, padded: bool, size: nat)
    requires Bytes(b)
    ensures Decoded(Sextets(Encode(b, padded))) == b
    ensures Fits(|Sextets(Encode(b, padded))|, size) <==>
            b == "" || |b| + (if |b| % 3 == 0 then 0 else 1) < size
  {
    EncodingSextets(b, padded, "");
    assert Encode(b, padded) + "" == Encode(b, padded);
    assert Split(b) + [] == Split(b);
    SplitReadsBack(b, []);
  }

  // ---------- What is skipped ----------

  /** The alphabet characters before the first `=`. */
  function Kept(input: string): string {
    if input == "" || input[0] == '=' then ""
    else (if Sextet(input[0]) == 64 then "" else [input[0]]) + Kept(input[1..])
  }

  /** Only those characters matter. */
  lemma {:induction false} OnlyAlphabetMatters(input: string)
    ensures Sextets(input) == Sextets(Kept(input)) && |Kept(input)| == |Sextets(input)|
  {
    if input != "" && input[0] != '=' {
      OnlyAlphabetMatters(input[1..]);
      if Sextet(input[0]) == 64 {
        assert Kept(input) == Kept(input[1..]);
      } else {
        assert Kept(input)[1..] == Kept(input[1..]);
      }
    }
  }
}
