/** Basic credentials as `auth.c` reads them, and the user list it checks them
    against. */
module BasicAuth {
  import opened Base64
  import opened CStrings
  import opened Options

  /** `isspace` in the C locale. */
  predicate IsSpace(c: char) {
    c == ' ' || 9 <= c as int <= 13
  }

  function SkipSpace(s: string): string {
    if s != "" && IsSpace(s[0]) then SkipSpace(s[1..]) else s
  }

  const SCHEME := "Basic "
  const BUFFER_SIZE := 512

  /** User and password in the decoded bytes: up to the first colon, and from
      there to the terminator. */
  function SplitAtColon(decoded: string): Option<(string, string)> {
    SplitText(Terminated(decoded))
  }

  function SplitText(text: string): Option<(string, string)> {
    var colon := IndexOf(text, ':');
    if colon == |text| then None else Some((text[..colon], text[colon + 1..]))
  }

  /** What the text behind the scheme gives. */
  function ParseCoded(coded: string): Option<(string, string)> {
    var vs := Sextets(SkipSpace(coded));
    if Fits(|vs|, BUFFER_SIZE) then SplitAtColon(Decoded(vs)) else None
  }

  /** What a header gives. */
  function ParseBasic(header: string): Option<(string, string)> {
    var at := FindNoCase(header, SCHEME, 0);
    if at.None? then None else ParseCoded(header[at.value + |SCHEME|..])
  }

  /** Both parts of a result, with their terminators, fit buffers of these sizes. */
  predicate FitsInto(credentials: Option<(string, string)>, userSize: nat, passwordSize: nat) {
    credentials.Some? ==> |credentials.value.0| < userSize && |credentials.value.1| < passwordSize
  }

  /** `auth_parse_basic`. The caller's buffers have to be large enough for what the
      header gives; on failure they stay as they are. */
  method AuthParseBasic(header: string, username: array<char>, password: array<char>) returns (ok: bool)
    requires username != password && FitsInto(ParseBasic(header), username.Length, password.Length)
    modifies username, password
    ensures ok <==> ParseBasic(header).Some?
    ensures ok ==> ParseBasic(header) == Some((Terminated(username[..]), Terminated(password[..])))
    ensures !ok ==> username[..] == old(username[..]) && password[..] == old(password[..])
  {
    var text := DecodeBasic(header);
    if text.None? {
      return false;
    }
    var colon := IndexOf(text.value, ':');
    if colon == |text.value| {
      return false;
    }
    CopyString(text.value[..colon], username);
    CopyString(text.value[colon + 1..], password);
    return true;
  }

  /** The part of it that finds the scheme and decodes what follows. */
  method DecodeBasic(header: string) returns (text: Option<string>)
    ensures text.Some? ==> '\0' !in text.value
    ensures ParseBasic(header) == if text.Some? then SplitText(text.value) else None
  {
    var at := FindNoCase(header, SCHEME, 0);
    if at.None? {
      return None;
    }
    var basic := at.value + |SCHEME|;
    ghost var start := basic;
    while basic < |header| && IsSpace(header[basic])
      invariant start <= basic <= |header|
      invariant SkipSpace(header[start..]) == SkipSpace(header[basic..])
    {
      assert header[basic..][1..] == header[basic + 1..];
      basic := basic + 1;
    }
    var decoded := new char[BUFFER_SIZE];
    var length := Decode(header[basic..], decoded, BUFFER_SIZE);
    if length.None? {
      return None;
    }
    BufferHoldsText(decoded[..], length.value);
    return Some(decoded[..IndexOf(decoded[..], '\0')]);
  }

  /** `strcpy`. */
  method CopyString(s: string, dest: array<char>)
    requires '\0' !in s && |s| < dest.Length
    modifies dest
    ensures Terminated(dest[..]) == s
  {
    forall i | 0 <= i < |s| {
      dest[i] := s[i];
    }
    dest[|s|] := '\0';
    assert forall i | 0 <= i < |s| :: dest[..][i] == s[i] && s[i] in s;
    assert IndexOf(dest[..], '\0') == |s|;
  }

  /** The C string in a terminated buffer is the one in its bytes. */
  lemma BufferHoldsText(buffer: string, length: nat)
    requires length < |buffer| && buffer[length] == '\0'
    ensures buffer[..IndexOf(buffer, '\0')] == Terminated(buffer[..length])
  {
    var i, j := IndexOf(buffer, '\0'), IndexOf(buffer[..length], '\0');
    assert i <= length;
    assert i < length ==> buffer[..length][i] == '\0';
    assert j < length ==> buffer[j] == '\0';
  }

  // ---------- Credentials come back ----------

  predicate NulFree(s: string) {
    Bytes(s) && '\0' !in s
  }

  function Joined(user: string, password: string): string {
    user + ":" + password
  }

  /** The sextets decoded behind the credentials: those of whatever follows, unless
      a padding character stands in between. */
  function Behind(b: string, padded: bool, tail: string): seq<Six> {
    if padded && |b| % 3 != 0 then [] else Sextets(tail)
  }

  /** The scheme is found where it stands, as long as it does not occur before. */
  lemma SchemeIsFound(before: string, rest: string)
    requires FindNoCase(before + SCHEME, SCHEME, 0) == Some(|before|)
    ensures ParseBasic(before + SCHEME + rest) == ParseCoded(rest)
  {
    FindNoCaseExtends(before + SCHEME, SCHEME, |before|, rest);
    assert (before + SCHEME + rest)[|before| + |SCHEME|..] == rest;
  }

  /** Parsing encoded credentials comes down to splitting what is decoded. */
  lemma ParseIsSplit(b: string, padded: bool, tail: string)
    requires Bytes(b) && b != ""
    ensures var vs := Split(b) + Behind(b, padded, tail);
            ParseCoded(Encode(b, padded) + tail) ==
            if Fits(|vs|, BUFFER_SIZE) then SplitAtColon(Decoded(vs)) else None
  {
    var coded := Encode(b, padded) + tail;
    assert coded[0] == Letter(Split(b)[0]);
    TableInvertsAlphabet(Split(b)[0]);
    assert SkipSpace(coded) == coded;
    EncodingSextets(b, padded, tail);
  }

  /** The text in some bytes with others behind them, when the first have no NUL. */
  lemma TextContinues(b: string, extra: string)
    requires NulFree(b)
    ensures Terminated(b + extra) == b + Terminated(extra)
  {
    var all := b + extra;
    var i, k := IndexOf(all, '\0'), IndexOf(extra, '\0');
    assert forall j | 0 <= j < |b| :: all[j] == b[j] && b[j] in b;
    assert k < |extra| ==> all[|b| + k] == '\0';
    assert forall j | 0 <= j < k :: all[|b| + j] == extra[j];
    assert i == |b| + k;
  }

  /** Splitting gives the user back, and the password with the text that follows
      it. */
  lemma SplitRecovers(user: string, password: string, extra: string)
    requires NulFree(Joined(user, password)) && ':' !in user
    ensures SplitAtColon(Joined(user, password) + extra) == Some((user, password + Terminated(extra)))
  {
    TextContinues(Joined(user, password), extra);
    var text := Joined(user, password) + Terminated(extra);
    assert forall j | 0 <= j < |user| :: text[j] == user[j] && user[j] in user;
    assert text[|user|] == ':';
    assert IndexOf(text, ':') == |user|;
    assert text[..|user|] == user;
    assert text[|user| + 1..] == password + Terminated(extra);
  }

  /** The bytes decoded behind the credentials. */
  function Extra(b: string, more: seq<Six>): string
    requires Bytes(b)
  {
    SplitReadsBack(b, more);
    Decoded(Split(b) + more)[|b|..]
  }

  /** What is read behind the scheme: the user, and the password with the text
      decoded behind it. */
  lemma CodedCredentials(user: string, password: string, padded: bool, tail: string)
    requires NulFree(Joined(user, password)) && ':' !in user
    ensures var b := Joined(user, password);
            var more := Behind(b, padded, tail);
            ParseCoded(Encode(b, padded) + tail) ==
            if Fits(|Split(b) + more|, BUFFER_SIZE) then Some((user, password + Terminated(Extra(b, more)))) else None
  {
    var b := Joined(user, password);
    var more := Behind(b, padded, tail);
    ParseIsSplit(b, padded, tail);
    SplitReadsBack(b, more);
    assert Decoded(Split(b) + more) == b + Extra(b, more);
    SplitRecovers(user, password, Extra(b, more));
  }

  /** What may stand behind the credentials `b`: no more than the bits left over in
      their last group, and those of a NUL byte. */
  predicate Harmless(b: string, more: seq<Six>) {
    if |b| % 3 == 0 then |more| <= 1 || (more[0] == 0 && more[1] < 16)
    else if |b| % 3 == 1 then more == [] || more[0] < 4
    else more == [] || more[0] == 0
  }

  predicate NothingOrNul(extra: string) {
    extra == "" || extra[0] == '\0'
  }

  /** Nothing, or a NUL, is decoded behind bytes if and only if what follows is
      harmless. */
  lemma {:induction false} ExtraIsHarmlessIff(b: string, more: seq<Six>)
    requires Bytes(b)
    ensures NothingOrNul(Extra(b, more)) <==> Harmless(b, more)
  {
    if |b| >= 3 {
      ExtraSkipsGroup(b, more);
      ExtraIsHarmlessIff(b[3..], more);
      HarmlessSkipsGroup(b, b[3..], more);
    } else {
      LastGroupIsHarmlessIff(b, more);
    }
  }

  lemma LastGroupIsHarmlessIff(b: string, more: seq<Six>)
    requires Bytes(b) && |b| < 3
    ensures NothingOrNul(Extra(b, more)) <==> Harmless(b, more)
  {
    if |b| == 2 {
      ExtraAfterTwo(b, more);
    } else if |b| == 1 {
      ExtraAfterOne(b, more);
    } else {
      ExtraAfterNone(b, more);
    }
  }

  lemma ExtraAfterNone(b: string, more: seq<Six>)
    requires b == ""
    ensures Extra(b, more) == "" <==> |more| <= 1
    ensures |more| > 1 ==> Extra(b, more)[0] == First(more[0], more[1])
  {
    assert Split(b) + more == more;
  }

  lemma HarmlessSkipsGroup(b: string, rest: string, more: seq<Six>)
    requires |b| == |rest| + 3
    ensures Harmless(b, more) <==> Harmless(rest, more)
  {
  }

  lemma ExtraSkipsGroup(b: string, more: seq<Six>)
    requires Bytes(b) && |b| >= 3
    ensures Extra(b, more) == Extra(b[3..], more)
  {
    var vs := Split(b) + more;
    SplitReadsBack(b, more);
    SplitReadsBack(b[3..], more);
    SplitSkipsGroup(b, more);
    DecodedSkipsGroup(vs);
    SliceTwice(Decoded(vs), 3, |b| - 3);
  }

  lemma SplitSkipsGroup(b: string, more: seq<Six>)
    requires Bytes(b) && |b| >= 3
    ensures |Split(b) + more| >= 4 && (Split(b) + more)[4..] == Split(b[3..]) + more
  {
    var group := SplitGroup(b[0] as int, b[1] as int, b[2] as int);
    assert Split(b) == group + Split(b[3..]);
    DropGroup(group, Split(b[3..]), more);
  }

  lemma DropGroup(group: seq<Six>, rest: seq<Six>, more: seq<Six>)
    requires |group| == 4
    ensures (group + rest + more)[4..] == rest + more
  {
  }

  lemma SliceTwice(s: string, i: nat, j: nat)
    requires i + j <= |s|
    ensures s[i..][j..] == s[i + j..]
  {
  }

  lemma DecodedSkipsGroup(vs: seq<Six>)
    requires |vs| >= 4
    ensures |Decoded(vs)| >= 3 && Decoded(vs)[3..] == Decoded(vs[4..])
  {
  }

  lemma ExtraAfterTwo(b: string, more: seq<Six>)
    requires Bytes(b) && |b| == 2
    ensures Extra(b, more) == "" <==> more == []
    ensures more != [] ==> Extra(b, more)[0] == more[0] as char
  {
    SplitReadsBack(b, more);
    var vs, own := Split(b) + more, SplitGroup(b[0] as int, b[1] as int, 0);
    assert vs[2] == own[2] && own[2] % 4 == 0;
    if more != [] {
      assert vs[3] == more[0];
      assert Decoded(vs)[2] == Third(vs[2], vs[3]);
    }
  }

  lemma ExtraAfterOne(b: string, more: seq<Six>)
    requires Bytes(b) && |b| == 1
    ensures Extra(b, more) == "" <==> more == []
    ensures more != [] ==> Extra(b, more)[0] == (more[0] / 4) as char
  {
    SplitReadsBack(b, more);
    var vs, own := Split(b) + more, SplitGroup(b[0] as int, 0, 0);
    assert vs[1] == own[1] && own[1] % 16 == 0;
    if more != [] {
      assert vs[2] == more[0];
      assert Decoded(vs)[1] == Second(vs[1], vs[2]);
    }
  }

  /** Credentials are recovered from a header if and only if all that is decoded
      fits the buffer and the sextets of what follows are harmless. */
  lemma CredentialsRecoveredIff(before: string, user: string, password: string, padded: bool, tail: string)
    requires NulFree(Joined(user, password)) && ':' !in user
    requires FindNoCase(before + SCHEME, SCHEME, 0) == Some(|before|)
    ensures var b := Joined(user, password);
            var more := Behind(b, padded, tail);
            ParseBasic(before + SCHEME + (Encode(b, padded) + tail)) == Some((user, password)) <==>
            Fits(|Split(b)| + |more|, BUFFER_SIZE) && Harmless(b, more)
  {
    SchemeIsFound(before, Encode(Joined(user, password), padded) + tail);
    CodedRecoveredIff(user, password, padded, tail);
  }

  lemma CodedRecoveredIff(user: string, password: string, padded: bool, tail: string)
    requires NulFree(Joined(user, password)) && ':' !in user
    ensures var b := Joined(user, password);
            var more := Behind(b, padded, tail);
            ParseCoded(Encode(b, padded) + tail) == Some((user, password)) <==>
            Fits(|Split(b)| + |more|, BUFFER_SIZE) && Harmless(b, more)
  {
    var b := Joined(user, password);
    var extra := Extra(b, Behind(b, padded, tail));
    CodedCredentials(user, password, padded, tail);
    ExtraIsHarmlessIff(b, Behind(b, padded, tail));
    SameLength(password, Terminated(extra));
    TerminatedIsEmptyIff(extra);
  }

  lemma TerminatedIsEmptyIff(extra: string)
    ensures Terminated(extra) == "" <==> NothingOrNul(extra)
  {
  }

  lemma SameLength(a: string, b: string)
    ensures a + b == a <==> b == ""
  {
    assert |a + b| == |a| + |b|;
    assert a + "" == a;
  }

  /** At the end of the string, or before anything at all if the encoding ends in
      padding, they are recovered if and only if together with the colon they have
      at most 510 characters. */
  lemma CredentialsRoundTrip(before: string, user: string, password: string, padded: bool, tail: string)
    requires NulFree(Joined(user, password)) && ':' !in user
    requires FindNoCase(before + SCHEME, SCHEME, 0) == Some(|before|)
    requires tail == "" || (padded && |Joined(user, password)| % 3 != 0)
    ensures ParseBasic(before + SCHEME + (Encode(Joined(user, password), padded) + tail)) ==
            if |Joined(user, password)| <= 510 then Some((user, password)) else None
  {
    SchemeIsFound(before, Encode(Joined(user, password), padded) + tail);
    CodedRoundTrip(user, password, padded, tail);
  }

  lemma CodedRoundTrip(user: string, password: string, padded: bool, tail: string)
    requires NulFree(Joined(user, password)) && ':' !in user
    requires tail == "" || (padded && |Joined(user, password)| % 3 != 0)
    ensures ParseCoded(Encode(Joined(user, password), padded) + tail) ==
            if |Joined(user, password)| <= 510 then Some((user, password)) else None
  {
    var b := Joined(user, password);
    CodedCredentials(user, password, padded, tail);
    NothingBehind(b);
    FitsIff(|b|, |Split(b)|);
    SameLength(password, "");
  }

  /** The scheme may be spelled in any case: what is read behind its first spelling is
      the same. */
  lemma AnySpellingIsFound(before: string, scheme: string, rest: string)
    requires |scheme| == 6 && SpelledAt(scheme, "Basic ", 0)
    requires forall k: nat | k < |before| :: !SpelledAt(before + scheme + rest, "Basic ", k)
    ensures ParseBasic(before + scheme + rest) == ParseCoded(rest)
  {
    var header := before + scheme + rest;
    forall i | 0 <= i < 6
      ensures SameLetter(header[|before| + i], "Basic "[i])
    {
      assert header[|before| + i] == scheme[0 + i];
    }
    FirstSpellingIsFound(header, "Basic ", |before|);
    assert header[|before| + 6..] == rest;
  }

  /** So credentials come back behind any spelling. */
  lemma AnySpellingRoundTrips(before: string, scheme: string, user: string, password: string, padded: bool)
    requires NulFree(Joined(user, password)) && ':' !in user
    requires |scheme| == 6 && SpelledAt(scheme, "Basic ", 0)
    requires forall i | 0 <= i < |before| :: before[i] != 'B' && before[i] != 'b'
    ensures ParseBasic(before + scheme + Encode(user + ":" + password, padded))
            == if |user| + 1 + |password| <= 510 then Some((user, password)) else None
  {
    var b := Joined(user, password);
    var coded := Encode(b, padded);
    forall k: nat | k < |before|
      ensures !SpelledAt(before + scheme + coded, "Basic ", k)
    {
      assert (before + scheme + coded)[k + 0] == before[k] && "Basic "[0] == 'B';
    }
    AnySpellingIsFound(before, scheme, coded);
    assert coded + "" == coded;
    CodedRoundTrip(user, password, padded, "");
  }

  /** Without a spelling of the scheme, or without a colon in what is decoded, the
      header is refused. */
  lemma RefusedWithoutSchemeOrColon(header: string, scheme: string, b: string, padded: bool)
    requires |scheme| == 6 && SpelledAt(scheme, "Basic ", 0) && NulFree(b) && ':' !in b
    ensures (forall k: nat :: !SpelledAt(header, "Basic ", k)) ==> ParseBasic(header) == None
    ensures ParseBasic(scheme + Encode(b, padded)) == None
  {
    FindsFirstSpelling(header, "Basic ");
    var coded := Encode(b, padded);
    assert "" + scheme + coded == scheme + coded && coded + "" == coded;
    AnySpellingIsFound("", scheme, coded);
    NothingWithoutColon(b, padded);
  }

  lemma NothingWithoutColon(b: string, padded: bool)
    requires NulFree(b) && ':' !in b
    ensures ParseCoded(Encode(b, padded)) == None
  {
    var coded := Encode(b, padded);
    assert coded + "" == coded;
    NoColonIsRefused(b);
    if b != "" {
      ParseIsSplit(b, padded, "");
      SplitReadsBack(b, []);
      assert Behind(b, padded, "") == [] && Split(b) + [] == Split(b);
    } else {
      EmptyCoded(padded);
    }
  }

  lemma NoColonIsRefused(b: string)
    requires NulFree(b) && ':' !in b
    ensures SplitAtColon(b) == None
  {
    TextContinues(b, "");
    assert b + "" == b && Terminated("") == "";
  }

  lemma EmptyCoded(padded: bool)
    ensures ParseCoded(Encode("", padded)) == None
  {
    assert Encode("", padded) == "";
  }

  /** The size of the caller's two buffers. */
  const NAME_SIZE := 128

  /** What comes back then fits the caller's buffers if and only if neither part has
      more than 127 characters, or they are refused. */
  lemma CredentialsFitCallerIff(before: string, user: string, password: string, padded: bool, tail: string)
    requires NulFree(Joined(user, password)) && ':' !in user
    requires FindNoCase(before + SCHEME, SCHEME, 0) == Some(|before|)
    requires tail == "" || (padded && |Joined(user, password)| % 3 != 0)
    ensures var credentials := ParseBasic(before + SCHEME + (Encode(Joined(user, password), padded) + tail));
            FitsInto(credentials, NAME_SIZE, NAME_SIZE) <==>
            (|user| <= 127 && |password| <= 127) || |user| + 1 + |password| > 510
  {
    CredentialsRoundTrip(before, user, password, padded, tail);
    assert |Joined(user, password)| == |user| + 1 + |password|;
  }

  lemma NothingBehind(b: string)
    requires Bytes(b)
    ensures Split(b) + [] == Split(b) && Extra(b, []) == "" && Terminated("") == ""
  {
    SplitReadsBack(b, []);
    assert Split(b) + [] == Split(b);
  }

  lemma FitsIff(n: nat, sextets: nat)
    requires n > 0 && sextets == n / 3 * 4 + (if n % 3 == 0 then 0 else n % 3 + 1)
    ensures Fits(sextets, 512) <==> n <= 510
  {
  }

  const HEADER := "Proxy-Authorization: "

  /** The name of the header has no `b`, so the scheme is found behind it. */
  lemma SchemeIsFoundInHeader()
    ensures FindNoCase(HEADER + SCHEME, SCHEME, 0) == Some(|HEADER|)
  {
    forall j | 0 <= j < |HEADER|
      ensures !MatchesNoCaseAt(HEADER + SCHEME, SCHEME, j)
    {
      assert (HEADER + SCHEME)[j + 0] == HEADER[j] && Lower(HEADER[j]) != 'b' == Lower(SCHEME[0]);
    }
    FindNoCaseIs(HEADER + SCHEME, SCHEME, |HEADER|);
  }

  /** Without padding the next header line is decoded as well: no credentials whose
      encoding is made of whole groups, or left unpadded, come back from a request
      in which the `Host` header follows. */
  lemma FollowingHeaderCorrupts(user: string, password: string, padded: bool, rest: string)
    requires NulFree(Joined(user, password)) && ':' !in user
    requires padded ==> |Joined(user, password)| % 3 == 0
    ensures ParseBasic(HEADER + SCHEME + (Encode(Joined(user, password), padded) + ("\r\nHost: " + rest)))
            != Some((user, password))
  {
    SchemeIsFoundInHeader();
    HostSextets("\r\nHost: " + rest);
    LettersBehindCorrupt(HEADER, user, password, padded, "\r\nHost: " + rest);
  }

  /** So it is with anything behind them that starts with two letters of the alphabet,
      other than the first few. */
  lemma LettersBehindCorrupt(before: string, user: string, password: string, padded: bool, tail: string)
    requires NulFree(Joined(user, password)) && ':' !in user
    requires FindNoCase(before + SCHEME, SCHEME, 0) == Some(|before|)
    requires padded ==> |Joined(user, password)| % 3 == 0
    requires |Sextets(tail)| >= 2 && Sextets(tail)[0] >= 4
    ensures ParseBasic(before + SCHEME + (Encode(Joined(user, password), padded) + tail)) != Some((user, password))
  {
    CredentialsRecoveredIff(before, user, password, padded, tail);
    LettersAreNotHarmless(Joined(user, password), Behind(Joined(user, password), padded, tail));
  }

  lemma LettersAreNotHarmless(b: string, more: seq<Six>)
    requires |more| >= 2 && more[0] >= 4
    ensures !Harmless(b, more)
  {
  }

  lemma HostSextets(tail: string)
    requires "\r\nHo" <= tail
    ensures |Sextets(tail)| >= 2 && Sextets(tail)[0] == 7
  {
    assert tail[0] == '\r' && tail[1] == '\n' && tail[2] == 'H' && tail[3] == 'o';
    assert tail[1..][1..] == tail[2..] && tail[2..][1..] == tail[3..];
    assert Sextets(tail) == Sextets(tail[2..]) == [7] + Sextets(tail[3..]);
  }

  // ---------- The user list ----------

  datatype User = User(name: string, password: string)

  /** `auth_verify`: the newest user first, until one matches. */
  method Verify(users: seq<User>, name: Option<string>, password: Option<string>) returns (ok: bool)
    ensures ok <==> name.Some? && password.Some? && User(name.value, password.value) in users
  {
    if name.None? || password.None? {
      return false;
    }
    for i := 0 to |users|
      invariant User(name.value, password.value) !in users[..i]
    {
      if users[i].name == name.value && users[i].password == password.value {
        return true;
      }
    }
    return false;
  }
}
