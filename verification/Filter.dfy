/** The wildcard matcher and the URL and IP filters of `filter.c`. */
module Filter {
  import opened Options

  // ---------- The meaning of a pattern ----------

  /** `*` stands for any sequence, `?` for any one character, and every other
      character for itself. */
  ghost predicate Matches(p: string, s: string)
    decreases |p|
  {
    if p == "" then s == ""
    else if p[0] == '*' then exists k | 0 <= k <= |s| :: Matches(p[1..], s[k..])
    else s != "" && (p[0] == '?' || p[0] == s[0]) && Matches(p[1..], s[1..])
  }

  /** The pieces put together. */
  function Joined(pieces: seq<string>): string {
    if pieces == [] then "" else pieces[0] + Joined(pieces[1..])
  }

  /** What one character of a pattern can stand for. */
  predicate StandsFor(c: char, piece: string) {
    c == '*' || (|piece| == 1 && (c == '?' || c == piece[0]))
  }

  /** The string is cut into one piece for each character of the pattern. */
  predicate CutBy(p: string, s: string, pieces: seq<string>) {
    |pieces| == |p| && Joined(pieces) == s && forall i | 0 <= i < |p| :: StandsFor(p[i], pieces[i])
  }

  /** A pattern matches exactly the strings that can be cut into pieces that its
      characters stand for. */
  lemma MatchesIffCut(p: string, s: string)
    ensures Matches(p, s) <==> exists pieces :: CutBy(p, s, pieces)
  {
    if Matches(p, s) {
      var pieces := MatchedIsCut(p, s);
    }
    if pieces :| CutBy(p, s, pieces) {
      CutIsMatched(p, s, pieces);
    }
  }

  lemma {:induction false} MatchedIsCut(p: string, s: string) returns (pieces: seq<string>)
    requires Matches(p, s)
    ensures CutBy(p, s, pieces)
  {
    pieces := [];
    if p != "" {
      var k := 1;
      if p[0] == '*' {
        k :| 0 <= k <= |s| && Matches(p[1..], s[k..]);
      }
      var rest := MatchedIsCut(p[1..], s[k..]);
      pieces := [s[..k]] + rest;
      assert pieces[1..] == rest && s[..k] + s[k..] == s;
      forall i | 0 < i < |p|
        ensures StandsFor(p[i], pieces[i])
      {
        assert p[i] == p[1..][i - 1] && pieces[i] == rest[i - 1];
      }
    }
  }

  lemma {:induction false} CutIsMatched(p: string, s: string, pieces: seq<string>)
    requires CutBy(p, s, pieces)
    ensures Matches(p, s)
  {
    if p != "" {
      var k, rest := |pieces[0]|, pieces[1..];
      assert s[..k] == pieces[0] && s[k..] == Joined(rest);
      forall i | 0 <= i < |p[1..]|
        ensures StandsFor(p[1..][i], rest[i])
      {
        assert StandsFor(p[i + 1], pieces[i + 1]);
      }
      CutIsMatched(p[1..], s[k..], rest);
    }
  }

  /** A star-free stretch of the pattern consumes exactly its own length. */
  lemma {:induction false} StarFreeStretchConsumes(p: string, s: string, n: nat)
    requires n <= |p| && Matches(p, s)
    requires forall i | 0 <= i < n :: p[i] != '*'
    ensures n <= |s| && Matches(p[n..], s[n..])
  {
    if n > 0 {
      StarFreeStretchConsumes(p[1..], s[1..], n - 1);
      assert p[1..][n - 1..] == p[n..] && s[1..][n - 1..] == s[n..];
    } else {
      assert p[0..] == p && s[0..] == s;
    }
  }

  /** A leading star can absorb more of the string. */
  lemma StarAbsorbs(p: string, s: string, k: nat)
    requires p != "" && p[0] == '*' && k <= |s| && Matches(p, s[k..])
    ensures Matches(p, s)
  {
    var j :| 0 <= j <= |s[k..]| && Matches(p[1..], s[k..][j..]);
    assert s[k..][j..] == s[k + j..];
  }

  /** A pattern that starts with a star matches from here, or its rest does,
      here or further on. */
  lemma StarSplits(p: string, s: string)
    requires p != "" && p[0] == '*'
    ensures Matches(p, s) <==>
            Matches(p[1..], s) || exists k | 0 < k <= |s| :: Matches(p[1..], s[k..])
  {
    assert s[0..] == s;
  }

  /** The empty string is matched exactly by patterns made of stars. */
  lemma {:induction false} EmptyNeedsStars(p: string)
    ensures Matches(p, "") <==> forall i | 0 <= i < |p| :: p[i] == '*'
  {
    if p != "" {
      EmptyNeedsStars(p[1..]);
      if p[0] == '*' {
        assert ""[0..] == "";
        assert Matches(p, "") <==> Matches(p[1..], "");
        assert forall i | 0 <= i < |p[1..]| :: p[1..][i] == p[i + 1];
        assert (forall i | 0 <= i < |p| :: p[i] == '*') ==> (forall i | 0 <= i < |p[1..]| :: p[1..][i] == '*');
        assert (forall i | 0 <= i < |p[1..]| :: p[1..][i] == '*') ==>
            (forall i | 0 < i < |p| :: p[i] == p[1..][i - 1] == '*');
      }
    }
  }

  // ---------- pattern_match ----------

  /** What is left to try: the current positions, or a later restart of the
      last star. */
  ghost predicate Pending(pattern: string, str: string, p: nat, s: nat, star: int, ss: nat)
    requires p <= |pattern| && s <= |str| && -1 <= star < |pattern|
  {
    || Matches(pattern[p..], str[s..])
    || (star >= 0 && exists k | ss < k <= |str| :: Matches(pattern[star + 1..], str[k..]))
  }

  /** Committing to the last star loses nothing: whatever an earlier star could
      still offer, the star at `p` offers too. */
  lemma CommitToLastStar(pattern: string, str: string, p: nat, s: nat, star: int, ss: nat)
    requires p < |pattern| && pattern[p] == '*' && ss <= s <= |str| && -1 <= star < p
    requires star >= 0 ==> p - (star + 1) == s - ss
    requires forall i | star < i < p && star >= 0 :: pattern[i] != '*'
    ensures Pending(pattern, str, p, s, star, ss) <==> Pending(pattern, str, p + 1, s, p, s)
  {
    StarSplits(pattern[p..], str[s..]);
    assert pattern[p..][1..] == pattern[p + 1..];
    assert forall k | 0 <= k <= |str[s..]| :: str[s..][k..] == str[s + k..];
    assert (exists k | s < k <= |str| :: Matches(pattern[p + 1..], str[k..])) ==>
        (exists k | 0 < k <= |str[s..]| :: Matches(pattern[p + 1..], str[s..][k..])) by {
      if k :| s < k <= |str| && Matches(pattern[p + 1..], str[k..]) {
        assert str[s..][k - s..] == str[k..];
      }
    }
    if star >= 0 {
      forall k | ss < k <= |str| && Matches(pattern[star + 1..], str[k..])
        ensures Matches(pattern[p..], str[s..])
      {
        RestartReaches(pattern, str, p, s, star, ss, k);
        StarAbsorbs(pattern[p..], str[s..], k - ss);
      }
    }
  }

  /** A restart of the star at `k` reaches position `p` shifted by as much. */
  lemma RestartReaches(pattern: string, str: string, p: nat, s: nat, star: nat, ss: nat, k: nat)
    requires star < p <= |pattern| && ss <= s <= |str| && ss < k <= |str|
    requires p - (star + 1) == s - ss
    requires forall i | star < i < p :: pattern[i] != '*'
    requires Matches(pattern[star + 1..], str[k..])
    ensures k + (s - ss) <= |str|
    ensures Matches(pattern[p..], str[s..][k - ss..])
  {
    StarFreeStretchConsumes(pattern[star + 1..], str[k..], s - ss);
    assert pattern[star + 1..][s - ss..] == pattern[p..];
    assert str[k..][s - ss..] == str[s..][k - ss..];
  }

  /** At a mismatch the only hope is to restart the star one character later. */
  lemma RestartAtMismatch(pattern: string, str: string, p: nat, s: nat, star: int, ss: nat)
    requires p <= |pattern| && ss <= s < |str| && -1 <= star < |pattern|
    requires p < |pattern| ==> pattern[p] != '*' && pattern[p] != '?' && pattern[p] != str[s]
    ensures Pending(pattern, str, p, s, star, ss) <==>
            star >= 0 && Pending(pattern, str, star + 1, ss + 1, star, ss + 1)
  {
    assert !Matches(pattern[p..], str[s..]);
  }

  /** The loop of `pattern_match`: one saved star, backtracking only to it. */
  method PatternMatch(pattern: string, str: string) returns (matched: bool)
    ensures matched <==> Matches(pattern, str)
  {
    var p, s, star, ss := 0, 0, -1, 0;
    assert pattern[0..] == pattern && str[0..] == str;
    while s < |str|
      invariant p <= |pattern| && ss <= s <= |str| && -1 <= star < |pattern|
      invariant star >= 0 ==> star < p && p - (star + 1) == s - ss
      invariant star >= 0 ==> forall i | star < i < p :: pattern[i] != '*'
      invariant Pending(pattern, str, p, s, star, ss) <==> Matches(pattern, str)
      decreases |str| - ss, |str| - s, |pattern| - p
    {
      if p < |pattern| && pattern[p] == '*' {
        CommitToLastStar(pattern, str, p, s, star, ss);
        star, p := p, p + 1;
        ss := s;
      } else if p < |pattern| && (pattern[p] == str[s] || pattern[p] == '?') {
        assert pattern[p..][1..] == pattern[p + 1..] && str[s..][1..] == str[s + 1..];
        p, s := p + 1, s + 1;
      } else {
        RestartAtMismatch(pattern, str, p, s, star, ss);
        if star < 0 {
          return false;
        }
        p := star + 1;
        ss := ss + 1;
        s := ss;
      }
    }
    assert Pending(pattern, str, p, s, star, ss) <==> Matches(pattern[p..], "") by {
      assert str[s..] == "";
      if star >= 0 {
        forall k | ss < k <= |str| && Matches(pattern[star + 1..], str[k..])
          ensures false
        {
          RestartReaches(pattern, str, p, s, star, ss, k);
        }
      }
    }
    EmptyNeedsStars(pattern[p..]);
    ghost var rest := p;
    while p < |pattern| && pattern[p] == '*'
      invariant rest <= p <= |pattern|
      invariant forall i | rest <= i < p :: pattern[i] == '*'
    {
      p := p + 1;
    }
    matched := p == |pattern|;
    assert p < |pattern| ==> pattern[rest..][p - rest] != '*';
  }

  // ---------- `*w*` is substring search ----------

  predicate Literal(w: string) {
    forall i | 0 <= i < |w| :: w[i] != '*' && w[i] != '?'
  }

  predicate OccursAt(s: string, w: string, k: nat) {
    k + |w| <= |s| && s[k..k + |w|] == w
  }

  ghost predicate Contains(s: string, w: string) {
    exists k: nat :: OccursAt(s, w, k)
  }

  /** A literal followed by a star matches exactly the strings it starts. */
  lemma {:induction false} LiteralThenStar(w: string, s: string)
    requires Literal(w)
    ensures Matches(w + "*", s) <==> |w| <= |s| && s[..|w|] == w
  {
    if w == "" {
      assert w + "*" == "*" && "*"[1..] == "" && s[|s|..] == "";
    } else {
      assert (w + "*")[1..] == w[1..] + "*";
      if s != "" {
        LiteralThenStar(w[1..], s[1..]);
        if |w| <= |s| {
          assert s[..|w|] == [s[0]] + s[1..][..|w| - 1];
          assert w == [w[0]] + w[1..];
        }
      }
    }
  }

  lemma StarredLiteralIsSubstringSearch(w: string, s: string)
    requires Literal(w)
    ensures Matches("*" + w + "*", s) <==> Contains(s, w)
  {
    var p := "*" + w + "*";
    assert p[1..] == w + "*";
    forall k | 0 <= k <= |s|
      ensures Matches(p[1..], s[k..]) <==> OccursAt(s, w, k)
    {
      LiteralThenStar(w, s[k..]);
      if k + |w| <= |s| {
        assert s[k..][..|w|] == s[k..k + |w|];
      }
    }
  }

  // ---------- The lists and the two checks ----------

  ghost predicate Listed(list: seq<string>, str: string) {
    exists i | 0 <= i < |list| :: Matches(list[i], str)
  }

  /** `check_pattern_list`: walks the list up to the first match. */
  method CheckPatternList(list: seq<string>, str: string) returns (found: bool)
    ensures found <==> Listed(list, str)
  {
    var node := 0;
    while node < |list|
      invariant node <= |list|
      invariant forall i | 0 <= i < node :: !Matches(list[i], str)
    {
      var m := PatternMatch(list[node], str);
      if m {
        return true;
      }
      node := node + 1;
    }
    return false;
  }

  const DEFAULT_URL_PATTERNS := ["*malware*", "*phishing*", "*tracking*", "*.ads.*"]

  function Reversed(s: seq<string>): (r: seq<string>)
    ensures |r| == |s|
    ensures forall i | 0 <= i < |s| :: r[i] == s[|s| - 1 - i]
  {
    if s == [] then [] else Reversed(s[1..]) + [s[0]]
  }

  lemma ReversedAppend(s: seq<string>, x: string)
    ensures Reversed(s + [x]) == [x] + Reversed(s)
  {
  }

  /** Order never matters to a lookup. */
  lemma ListedReversed(list: seq<string>, str: string)
    ensures Listed(Reversed(list), str) <==> Listed(list, str)
  {
    if Listed(list, str) {
      var i :| 0 <= i < |list| && Matches(list[i], str);
      assert Reversed(list)[|list| - 1 - i] == list[i];
    }
  }

  /** `add_pattern` once per configured address; each new node becomes the head. */
  method AddPatterns(list: seq<string>, patterns: seq<string>) returns (extended: seq<string>)
    ensures extended == Reversed(patterns) + list
  {
    extended := list;
    for i := 0 to |patterns|
      invariant extended == Reversed(patterns[..i]) + list
    {
      assert patterns[..i + 1] == patterns[..i] + [patterns[i]];
      ReversedAppend(patterns[..i], patterns[i]);
      extended := [patterns[i]] + extended;
    }
    assert patterns[..|patterns|] == patterns;
  }

  /** The four global pattern lists; the newest pattern is at the head. */
  class Filters {
    var urlBlacklist: seq<string>
    var urlWhitelist: seq<string>
    var ipBlacklist: seq<string>
    var ipWhitelist: seq<string>

    constructor ()
      ensures urlBlacklist == urlWhitelist == ipBlacklist == ipWhitelist == []
    {
      urlBlacklist, urlWhitelist, ipBlacklist, ipWhitelist := [], [], [], [];
    }

    /** `filter_init`: the built-in URL patterns and the configured addresses. */
    method Init(blackIps: seq<string>, whiteIps: seq<string>)
      modifies this
      ensures urlBlacklist == Reversed(DEFAULT_URL_PATTERNS) + old(urlBlacklist)
      ensures urlWhitelist == old(urlWhitelist)
      ensures ipBlacklist == Reversed(blackIps) + old(ipBlacklist)
      ensures ipWhitelist == Reversed(whiteIps) + old(ipWhitelist)
    {
      urlBlacklist := ["*malware*"] + urlBlacklist;
      urlBlacklist := ["*phishing*"] + urlBlacklist;
      urlBlacklist := ["*tracking*"] + urlBlacklist;
      urlBlacklist := ["*.ads.*"] + urlBlacklist;
      assert Reversed(DEFAULT_URL_PATTERNS) == ["*.ads.*", "*tracking*", "*phishing*", "*malware*"];
      ipBlacklist := AddPatterns(ipBlacklist, blackIps);
      ipWhitelist := AddPatterns(ipWhitelist, whiteIps);
    }

    /** `filter_check_url`: a whitelisted URL passes, a blacklisted one does
        not; a missing URL is refused. */
    method CheckUrl(url: Option<string>) returns (allowed: bool)
      ensures allowed <==> url.Some? && (Listed(urlWhitelist, url.value) || !Listed(urlBlacklist, url.value))
    {
      if url.None? {
        return false;
      }
      if urlWhitelist != [] {
        var white := CheckPatternList(urlWhitelist, url.value);
        if white {
          return true;
        }
      }
      if urlBlacklist != [] {
        var black := CheckPatternList(urlBlacklist, url.value);
        if black {
          return false;
        }
      }
      return true;
    }

    /** `filter_check_ip`: a non-empty whitelist alone decides. */
    method CheckIp(ip: Option<string>) returns (allowed: bool)
      ensures allowed <==>
              ip.Some? &&
              if ipWhitelist != [] then Listed(ipWhitelist, ip.value) else !Listed(ipBlacklist, ip.value)
    {
      if ip.None? {
        return false;
      }
      if ipWhitelist != [] {
        var white := CheckPatternList(ipWhitelist, ip.value);
        return white;
      }
      if ipBlacklist != [] {
        var black := CheckPatternList(ipBlacklist, ip.value);
        if black {
          return false;
        }
      }
      return true;
    }
  }

  /** What the built-in list blocks, without patterns: the URLs that contain one
      of four words. */
  lemma DefaultListBlocksFourWords(url: string)
    ensures Listed(Reversed(DEFAULT_URL_PATTERNS), url) <==>
            Contains(url, "malware") || Contains(url, "phishing") || Contains(url, "tracking") || Contains(url, ".ads.")
  {
    ListedReversed(DEFAULT_URL_PATTERNS, url);
    StarredLiteralIsSubstringSearch("malware", url);
    StarredLiteralIsSubstringSearch("phishing", url);
    StarredLiteralIsSubstringSearch("tracking", url);
    StarredLiteralIsSubstringSearch(".ads.", url);
    assert "*" + "malware" + "*" == "*malware*" == DEFAULT_URL_PATTERNS[0];
    assert "*" + "phishing" + "*" == "*phishing*" == DEFAULT_URL_PATTERNS[1];
    assert "*" + "tracking" + "*" == "*tracking*" == DEFAULT_URL_PATTERNS[2];
    assert "*" + ".ads." + "*" == "*.ads.*" == DEFAULT_URL_PATTERNS[3];
  }
}
