/** Selection by address over runs: when a client keeps its server. */
module Stickiness {
  import opened Balancing
  import opened BalancerRuns
  import opened Fairness
  import opened Hashing
  import opened Options
  import opened Rotation

  /** The server that the address hashes to. */
  function Home(servers: seq<Server>, ip: string): (h: nat)
    requires servers != []
    ensures h < |servers|
  {
    Djb2(ip) % |servers|
  }

  /** Health leaves the address no other server than `g`: its home while that is
      healthy, then the only other one to fall back on. */
  predicate PinnedTo(servers: seq<Server>, ip: string, g: nat)
    requires servers != []
  {
    if servers[Home(servers, ip)].healthy then g == Home(servers, ip)
    else g < |servers| && (|servers| == 1 || (servers[g].healthy && Rank(servers, |servers|) == 1))
  }

  /** The state before event `p` of a run. */
  function At(s: State, es: seq<Event>, p: nat): (t: State)
    requires s.servers != [] && p <= |es| && forall e | e in es :: Fits(|s.servers|, e)
    ensures |t.servers| == |s.servers|
  {
    Run(s, IpHash, es[..p])
  }

  /** All selections of the address in the run choose the same server, whatever the
      index that other clients left behind. */
  ghost predicate StickyRun(s: State, es: seq<Event>, ip: string)
    requires s.servers != [] && forall e | e in es :: Fits(|s.servers|, e)
  {
    forall p, q, a: nat, b: nat | 0 <= p < |es| && 0 <= q < |es| && es[p] == es[q] == Selected(ip) ::
      PickIpHash(At(s, es, p).servers, a, ip).0 == PickIpHash(At(s, es, q).servers, b, ip).0
  }

  predicate PinnedRun(s: State, es: seq<Event>, ip: string, g: nat)
    requires s.servers != [] && forall e | e in es :: Fits(|s.servers|, e)
  {
    forall p | 0 <= p < |es| && es[p] == Selected(ip) :: PinnedTo(At(s, es, p).servers, ip, g)
  }

  lemma PinnedIsPicked(servers: seq<Server>, ip: string, g: nat, current: nat)
    requires servers != [] && PinnedTo(servers, ip, g)
    ensures PickIpHash(servers, current, ip).0 == g
  {
    if !servers[Home(servers, ip)].healthy && |servers| > 1 {
      RoundRobinTakesNextRank(servers, current);
      var p := PickRoundRobin(servers, current).0;
      RankGrows(servers, p, |servers|);
      RankGrows(servers, g, |servers|);
      RankIsUnique(servers, p, g);
    }
  }

  lemma StickyIsPinned(servers: seq<Server>, ip: string)
    requires servers != [] && Sticky(servers, ip)
    ensures PinnedTo(servers, ip, PickIpHash(servers, 0, ip).0)
  {
    StickyIff(servers, ip);
    if Rank(servers, |servers|) == 1 {
      RoundRobinTakesNextRank(servers, 0);
    }
  }

  /** A client keeps its server over a run, whatever the index, if and only if health
      pins it to one and the same server at each of its selections: its home server
      is healthy at all of them, or unhealthy at all of them with the same single
      server left, or there is only one server. */
  lemma StickyRunIff(s: State, es: seq<Event>, ip: string)
    requires s.servers != [] && forall e | e in es :: Fits(|s.servers|, e)
    ensures StickyRun(s, es, ip) <==> exists g :: PinnedRun(s, es, ip, g)
  {
    if StickyRun(s, es, ip) {
      StickyRunIsPinned(s, es, ip);
    }
    if g :| PinnedRun(s, es, ip, g) {
      forall p, q, a: nat, b: nat | 0 <= p < |es| && 0 <= q < |es| && es[p] == es[q] == Selected(ip)
        ensures PickIpHash(At(s, es, p).servers, a, ip).0 == PickIpHash(At(s, es, q).servers, b, ip).0
      {
        PinnedIsPicked(At(s, es, p).servers, ip, g, a);
        PinnedIsPicked(At(s, es, q).servers, ip, g, b);
      }
    }
  }

  lemma StickyRunIsPinned(s: State, es: seq<Event>, ip: string)
    requires s.servers != [] && (forall e | e in es :: Fits(|s.servers|, e)) && StickyRun(s, es, ip)
    ensures exists g :: PinnedRun(s, es, ip, g)
  {
    if p :| 0 <= p < |es| && es[p] == Selected(ip) {
      var g := PickIpHash(At(s, es, p).servers, 0, ip).0;
      forall q | 0 <= q < |es| && es[q] == Selected(ip)
        ensures PinnedTo(At(s, es, q).servers, ip, g)
      {
        var servers := At(s, es, q).servers;
        assert Sticky(servers, ip);
        StickyIsPinned(servers, ip);
        assert PickIpHash(servers, 0, ip).0 == g;
      }
      assert PinnedRun(s, es, ip, g);
    } else {
      assert PinnedRun(s, es, ip, 0);
    }
  }

  /** Then what the run really selects is that server each time. */
  lemma PinnedRunsAgree(s: State, es: seq<Event>, ip: string, g: nat, p: nat)
    requires s.servers != [] && (forall e | e in es :: Fits(|s.servers|, e)) && PinnedRun(s, es, ip, g)
    requires p < |es| && es[p] == Selected(ip)
    ensures Pick(At(s, es, p), IpHash, ip).0 == Some(g)
  {
    PinnedIsPicked(At(s, es, p).servers, ip, g, At(s, es, p).current);
  }

  // ---------- Coming back at once ----------

  lemma SelectKeepsConfig(s: State, ip: string)
    requires s.servers != []
    ensures SameConfig(Select(s, IpHash, ip).servers, s.servers)
    ensures Rank(Select(s, IpHash, ip).servers, |s.servers|) == Rank(s.servers, |s.servers|)
  {
    ConfigDecidesRank(Select(s, IpHash, ip).servers, s.servers, |s.servers|);
  }

  /** Two selections in a row with nothing in between give the same server if and
      only if the home server is healthy or nothing else can be picked. */
  lemma ComesBackIff(s: State, ip: string)
    requires s.servers != []
    ensures Pick(Select(s, IpHash, ip), IpHash, ip).0 == Pick(s, IpHash, ip).0 <==>
            s.servers[Home(s.servers, ip)].healthy || |s.servers| == 1 || Rank(s.servers, |s.servers|) == 1
  {
    var n, t := |s.servers|, Select(s, IpHash, ip);
    SelectKeepsConfig(s, ip);
    if !s.servers[Home(s.servers, ip)].healthy {
      if Rank(s.servers, n) > 0 {
        FallbackMovesOn(s, t);
      } else {
        BlindFallbackMovesOn(s, t);
      }
    }
  }

  /** The next pick of round robin is the next healthy server by rank. */
  lemma FallbackMovesOn(s: State, t: State)
    requires s.servers != [] && SameConfig(t.servers, s.servers) && t.current == PickRoundRobin(s.servers, s.current).1
    requires Rank(s.servers, |s.servers|) == Rank(t.servers, |s.servers|) > 0
    ensures PickRoundRobin(t.servers, t.current).0 == PickRoundRobin(s.servers, s.current).0
            <==> Rank(s.servers, |s.servers|) == 1
  {
    var n, p, q := |s.servers|, PickRoundRobin(s.servers, s.current).0, PickRoundRobin(t.servers, t.current).0;
    RoundRobinTakesNextRank(s.servers, s.current);
    RoundRobinTakesNextRank(t.servers, t.current);
    ConfigDecidesRank(t.servers, s.servers, q);
    ConfigDecidesRank(t.servers, s.servers, Ring(p, 1, n));
    NextRankAdvances(s.servers, p);
    RankGrows(s.servers, q, n);
    if Rank(s.servers, n) == 1 {
      RankIsUnique(s.servers, p, q);
    }
  }

  /** With no healthy server it is the next server. */
  lemma BlindFallbackMovesOn(s: State, t: State)
    requires s.servers != [] && SameConfig(t.servers, s.servers) && t.current == PickRoundRobin(s.servers, s.current).1
    requires Rank(s.servers, |s.servers|) == Rank(t.servers, |s.servers|) == 0
    ensures PickRoundRobin(t.servers, t.current).0 == PickRoundRobin(s.servers, s.current).0 <==> |s.servers| == 1
  {
    var n := |s.servers|;
    NobodyIsPicked(s.servers, s.current);
    NobodyIsPicked(t.servers, t.current);
    var q, r := s.current / n, s.current % n;
    var turns := if r + 1 < n then 1 else 2;
    Distributes(n, q + turns, q);
    DivisionIsUnique(n, t.current / n, q + turns, t.current % n, r + 1 + n - turns * n);
  }

  // ---------- A client that moves ----------

  function Failures(i: nat, k: nat): (es: seq<Event>)
    ensures |es| == k && forall e | e in es :: e == Failed(i)
  {
    seq(k, _ => Failed(i))
  }

  lemma {:induction false} RunConcat(s: State, a: seq<Event>, b: seq<Event>)
    requires s.servers != [] && (forall e | e in a :: Fits(|s.servers|, e)) && forall e | e in b :: Fits(|s.servers|, e)
    ensures forall e | e in a + b :: Fits(|s.servers|, e)
    ensures Run(s, IpHash, a + b) == Run(Run(s, IpHash, a), IpHash, b)
    decreases |b|
  {
    if b == [] {
      assert a + b == a;
    } else {
      RunConcat(s, a, b[..|b| - 1]);
      assert (a + b)[..|a + b| - 1] == a + b[..|b| - 1];
    }
  }

  /** Failures are counted, the sixth makes the server unhealthy, and the others stay
      as they are. */
  lemma {:induction false} FailuresCount(s: State, i: nat, k: nat)
    requires i < |s.servers| && s.servers[i].failed == 0
    ensures var t := Run(s, IpHash, Failures(i, k));
            && t.servers[i].failed == k && (k > 5 ==> !t.servers[i].healthy)
            && forall j | 0 <= j < |s.servers| && j != i :: t.servers[j] == s.servers[j]
    decreases k
  {
    if k > 0 {
      assert Failures(i, k)[..k - 1] == Failures(i, k - 1);
      FailuresCount(s, i, k - 1);
    }
  }

  /** From any start with two servers or more: the client gets its home server, that
      fails six times, and the client is moved to another. */
  lemma ClientMovesAfterFailures(s: State, ip: string)
    requires Initial(s) && |s.servers| >= 2
    ensures var h := Home(s.servers, ip);
            var es := [Selected(ip)] + Failures(h, 6) + [Selected(ip)];
            && (forall e | e in es :: Fits(|s.servers|, e)) && es[0] == es[7] == Selected(ip)
            && Pick(At(s, es, 0), IpHash, ip).0 == Some(h)
            && Pick(At(s, es, 7), IpHash, ip).0 != Some(h)
  {
    var n, h := |s.servers|, Home(s.servers, ip);
    var first, failures := [Selected(ip)], Failures(h, 6);
    var es := first + failures + [Selected(ip)];
    assert es[..0] == [] && es[..7] == first + failures;
    assert |first| == 1 && first[..0] == [] && first[0] == Selected(ip);
    assert Run(s, IpHash, first) == Next(Run(s, IpHash, first[..0]), IpHash, first[0]);
    var t := Select(s, IpHash, ip);
    FailuresCount(t, h, 6);
    RunConcat(s, first, failures);
    var u := Run(s, IpHash, first + failures);
    var other := if h == 0 then 1 else 0;
    assert u.servers[other].healthy;
    RankGrows(u.servers, other, n);
    RoundRobinTakesNextRank(u.servers, u.current);
  }
}
