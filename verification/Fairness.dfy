/** How the load balancer's algorithms share selections out while health stays as
    it is. */
module Fairness {
  import opened Balancing
  import opened Hashing
  import opened Options
  import opened Rotation

  // ---------- Round robin ----------

  /** The rank that the next selection takes. */
  function Turn(servers: seq<Server>, current: nat): (r: nat)
    requires servers != [] && Rank(servers, |servers|) > 0
    ensures r < Rank(servers, |servers|)
  {
    NextRank(servers, current % |servers|)
  }

  /** One selection takes the server whose turn it is and passes the turn on. */
  lemma TurnPasses(servers: seq<Server>, t: State, ip: string, i: nat)
    requires SameConfig(t.servers, servers) && i < |servers| && servers[i].healthy
    requires Rank(servers, |servers|) > 0
    ensures Pick(t, RoundRobin, ip).0 == Some(i) <==> Turn(servers, t.current) == Rank(servers, i)
    ensures Turn(servers, Pick(t, RoundRobin, ip).1) == Ring(Turn(servers, t.current), 1, Rank(servers, |servers|))
  {
    var n := |servers|;
    ConfigDecidesRank(t.servers, servers, n);
    ConfigDecidesRank(t.servers, servers, t.current % n);
    RoundRobinTakesNextRank(t.servers, t.current);
    var (p, next) := PickRoundRobin(t.servers, t.current);
    ConfigDecidesRank(t.servers, servers, p);
    NextRankAdvances(servers, p);
    if Rank(servers, p) == Rank(servers, i) {
      RankIsUnique(servers, p, i);
    }
  }

  /** The turn goes around the healthy servers. */
  lemma {:induction false} TurnAfter(s: State, ips: seq<string>)
    requires s.servers != [] && Rank(s.servers, |s.servers|) > 0
    ensures Turn(s.servers, Serve(s, RoundRobin, ips).current) ==
            Residue(Turn(s.servers, s.current) + |ips|, Rank(s.servers, |s.servers|))
    decreases |ips|
  {
    if ips != [] {
      var pre := ips[..|ips| - 1];
      TurnAfter(s, pre);
      ServeKeepsConfig(s, RoundRobin, pre);
      TurnPasses(s.servers, Serve(s, RoundRobin, pre), ips[|pre|], LastHealthy(s.servers, |s.servers|));
      ResidueNext(Turn(s.servers, s.current) + |pre|, Rank(s.servers, |s.servers|));
    }
  }

  /** The selection after some others takes server `i` when the turn, moved on by
      their number, falls on its rank. */
  lemma PickAfter(s: State, ips: seq<string>, ip: string, i: nat)
    requires i < |s.servers| && s.servers[i].healthy && Rank(s.servers, |s.servers|) > 0
    ensures Pick(Serve(s, RoundRobin, ips), RoundRobin, ip).0 == Some(i) <==>
            Residue(Turn(s.servers, s.current) + |ips|, Rank(s.servers, |s.servers|)) == Rank(s.servers, i)
  {
    TurnAfter(s, ips);
    ServeKeepsConfig(s, RoundRobin, ips);
    TurnPasses(s.servers, Serve(s, RoundRobin, ips), ip, i);
  }

  /** Server `i` is selected exactly at the positions that fall on its rank. */
  lemma {:induction false} RoundRobinPicksByRank(s: State, ips: seq<string>, i: nat)
    requires i < |s.servers| && s.servers[i].healthy && Rank(s.servers, |s.servers|) > 0
    ensures Picks(s, RoundRobin, ips, i) ==
            Hits(Turn(s.servers, s.current), |ips|, Rank(s.servers, |s.servers|),
                 Rank(s.servers, i), Rank(s.servers, i) + 1)
    decreases |ips|
  {
    if ips != [] {
      var pre := ips[..|ips| - 1];
      RoundRobinPicksByRank(s, pre, i);
      PickAfter(s, pre, ips[|pre|], i);
    }
  }

  /** As many consecutive selections as there are healthy servers select each of
      them exactly once, from any state. */
  lemma RoundRobinVisitsEachOnce(s: State, ips: seq<string>, i: nat)
    requires i < |s.servers| && s.servers[i].healthy && |ips| == Rank(s.servers, |s.servers|)
    ensures Picks(s, RoundRobin, ips, i) == 1
  {
    RankGrows(s.servers, i, |s.servers|);
    RoundRobinPicksByRank(s, ips, i);
    FullTurn(Turn(s.servers, s.current), |ips|, Rank(s.servers, i), Rank(s.servers, i) + 1);
  }

  /** The rotation that the selections of a server follow. */
  lemma RoundRobinCount(s: State, ips: seq<string>, i: nat) returns (count: nat, first: nat, m: nat, r: nat)
    requires i < |s.servers| && s.servers[i].healthy
    ensures count == Picks(s, RoundRobin, ips, i)
    ensures m == Rank(s.servers, |s.servers|) && r < m && first == Turn(s.servers, s.current)
    ensures count == Hits(first, |ips|, m, r, r + 1)
  {
    RankGrows(s.servers, i, |s.servers|);
    RoundRobinPicksByRank(s, ips, i);
    count, first, m, r :=
      Picks(s, RoundRobin, ips, i), Turn(s.servers, s.current), Rank(s.servers, |s.servers|), Rank(s.servers, i);
  }

  /** Over any run of selections two healthy servers differ by at most one. */
  lemma RoundRobinIsFair(s: State, ips: seq<string>, i: nat, j: nat)
    requires i < |s.servers| && j < |s.servers| && s.servers[i].healthy && s.servers[j].healthy
    ensures Picks(s, RoundRobin, ips, i) <= Picks(s, RoundRobin, ips, j) + 1
  {
    var a, first, m, r := RoundRobinCount(s, ips, i);
    var b, first', m', q := RoundRobinCount(s, ips, j);
    Even(first, |ips|, m, r, q);
  }

  /** Unhealthy servers are passed over as long as another one is healthy. */
  lemma {:induction false} RoundRobinSkipsUnhealthy(s: State, ips: seq<string>, i: nat)
    requires i < |s.servers| && !s.servers[i].healthy && Rank(s.servers, |s.servers|) > 0
    ensures Picks(s, RoundRobin, ips, i) == 0
    decreases |ips|
  {
    if ips != [] {
      var pre := ips[..|ips| - 1];
      RoundRobinSkipsUnhealthy(s, pre, i);
      ServeKeepsConfig(s, RoundRobin, pre);
      var t := Serve(s, RoundRobin, pre);
      ConfigDecidesRank(t.servers, s.servers, |s.servers|);
      RoundRobinTakesNextRank(t.servers, t.current);
    }
  }

  // ---------- Weighted round robin ----------

  predicate HealthyWeightsNonNegative(servers: seq<Server>) {
    forall i | 0 <= i < |servers| :: servers[i].healthy ==> servers[i].weight >= 0
  }

  lemma {:induction false} WeightGrows(servers: seq<Server>, a: nat, b: nat)
    requires a <= b <= |servers| && HealthyWeightsNonNegative(servers)
    ensures 0 <= HealthyWeight(servers, a) <= HealthyWeight(servers, b)
    decreases a + b
  {
    if a < b {
      WeightGrows(servers, a, b - 1);
    } else if a > 0 {
      WeightGrows(servers, a - 1, a - 1);
    }
  }

  /** A target selects the healthy server in whose share of the total it falls. */
  lemma TargetSelectsShare(servers: seq<Server>, target: nat, i: nat)
    requires HealthyWeightsNonNegative(servers) && i < |servers|
    requires target < HealthyWeight(servers, |servers|)
    ensures PickByWeight(servers, target, 0) == Some(i) <==>
            servers[i].healthy && HealthyWeight(servers, i) <= target < HealthyWeight(servers, i + 1)
  {
    var p := PickByWeight(servers, target, 0);
    if p.None? {
      StaysBelow(servers, target, |servers|);
    } else {
      StaysBelow(servers, target, p.value);
      if i < p.value {
        assert servers[i].healthy ==> HealthyWeight(servers, i + 1) <= target;
      } else if i > p.value {
        WeightGrows(servers, p.value + 1, i);
      }
    }
  }

  lemma {:induction false} StaysBelow(servers: seq<Server>, target: nat, n: nat)
    requires n <= |servers|
    requires forall j | 0 <= j < n :: servers[j].healthy ==> HealthyWeight(servers, j + 1) <= target
    ensures HealthyWeight(servers, n) <= target
  {
    if n > 0 {
      StaysBelow(servers, target, n - 1);
    }
  }

  lemma {:induction false} WeightedIndexAdvances(s: State, ips: seq<string>)
    requires s.servers != [] && HealthyWeight(s.servers, |s.servers|) != 0
    ensures Serve(s, WeightedRoundRobin, ips).current == s.current + |ips|
    decreases |ips|
  {
    if ips != [] {
      var pre := ips[..|ips| - 1];
      WeightedIndexAdvances(s, pre);
      ServeKeepsConfig(s, WeightedRoundRobin, pre);
      ConfigDecidesRank(Serve(s, WeightedRoundRobin, pre).servers, s.servers, |s.servers|);
    }
  }

  /** One weighted selection in a state with the same health and weights. */
  lemma NextWeightedPick(servers: seq<Server>, t: State, ip: string, i: nat)
    requires SameConfig(t.servers, servers) && i < |servers| && servers[i].healthy
    requires HealthyWeightsNonNegative(servers) && HealthyWeight(servers, |servers|) > 0
    ensures Pick(t, WeightedRoundRobin, ip).0 == Some(i) <==>
            HealthyWeight(servers, i) <= Residue(t.current, HealthyWeight(servers, |servers|))
                                      < HealthyWeight(servers, i + 1)
  {
    ResidueIsModulo(t.current, HealthyWeight(servers, |servers|));
    ConfigDecidesRank(t.servers, servers, |servers|);
    ConfigDecidesRank(t.servers, servers, i);
    ConfigDecidesRank(t.servers, servers, i + 1);
    TargetSelectsShare(t.servers, t.current % HealthyWeight(t.servers, |servers|), i);
  }

  lemma WeightedPickAfter(s: State, ips: seq<string>, ip: string, i: nat)
    requires i < |s.servers| && s.servers[i].healthy && HealthyWeightsNonNegative(s.servers)
    requires HealthyWeight(s.servers, |s.servers|) > 0
    ensures Pick(Serve(s, WeightedRoundRobin, ips), WeightedRoundRobin, ip).0 == Some(i) <==>
            HealthyWeight(s.servers, i) <= Residue(s.current + |ips|, HealthyWeight(s.servers, |s.servers|))
            < HealthyWeight(s.servers, i + 1)
  {
    WeightedIndexAdvances(s, ips);
    ServeKeepsConfig(s, WeightedRoundRobin, ips);
    NextWeightedPick(s.servers, Serve(s, WeightedRoundRobin, ips), ip, i);
  }

  /** Server `i` is selected exactly at the positions that fall in its share. */
  lemma {:induction false} WeightedPicksByShare(s: State, ips: seq<string>, i: nat)
    requires i < |s.servers| && s.servers[i].healthy && HealthyWeightsNonNegative(s.servers)
    requires HealthyWeight(s.servers, |s.servers|) > 0
    ensures 0 <= HealthyWeight(s.servers, i) <= HealthyWeight(s.servers, i + 1)
    ensures Picks(s, WeightedRoundRobin, ips, i) ==
            Hits(s.current, |ips|, HealthyWeight(s.servers, |s.servers|),
                 HealthyWeight(s.servers, i), HealthyWeight(s.servers, i + 1))
    decreases |ips|
  {
    WeightGrows(s.servers, i, i + 1);
    if ips != [] {
      WeightedPicksByShare(s, ips[..|ips| - 1], i);
      WeightedPickAfter(s, ips[..|ips| - 1], ips[|ips| - 1], i);
    }
  }

  /** As many consecutive selections as the total healthy weight select each
      healthy server exactly as often as it weighs, from any state. */
  lemma WeightedSharesAreExact(s: State, ips: seq<string>, i: nat)
    requires i < |s.servers| && s.servers[i].healthy && HealthyWeightsNonNegative(s.servers)
    requires |ips| == HealthyWeight(s.servers, |s.servers|) > 0
    ensures Picks(s, WeightedRoundRobin, ips, i) == s.servers[i].weight
  {
    WeightedPicksByShare(s, ips, i);
    WeightGrows(s.servers, i + 1, |s.servers|);
    FullTurn(s.current, |ips|, HealthyWeight(s.servers, i), HealthyWeight(s.servers, i + 1));
  }

  /** Unhealthy servers, and those of weight zero, are never selected. */
  lemma {:induction false} WeightedSkipsUnhealthyAndWeightless(s: State, ips: seq<string>, i: nat)
    requires i < |s.servers| && HealthyWeightsNonNegative(s.servers)
    requires !s.servers[i].healthy || s.servers[i].weight == 0
    ensures Picks(s, WeightedRoundRobin, ips, i) == 0
    decreases |ips|
  {
    if ips != [] {
      var n, pre := |s.servers|, ips[..|ips| - 1];
      WeightedSkipsUnhealthyAndWeightless(s, pre, i);
      ServeKeepsConfig(s, WeightedRoundRobin, pre);
      var t := Serve(s, WeightedRoundRobin, pre);
      WeightGrows(t.servers, 0, n);
      if HealthyWeight(t.servers, n) > 0 {
        TargetSelectsShare(t.servers, t.current % HealthyWeight(t.servers, n), i);
      }
    }
  }

  // ---------- Least connections ----------

  /** Healthy servers hold equally many connections, up to one. */
  predicate Level(servers: seq<Server>) {
    forall i, j | 0 <= i < |servers| && 0 <= j < |servers| ::
      servers[i].healthy && servers[j].healthy ==> servers[i].active <= servers[j].active + 1
  }

  /** Least connections keeps the healthy servers level. */
  lemma {:induction false} LeastConnectionsStaysLevel(s: State, ips: seq<string>)
    requires s.servers != [] && Level(s.servers)
    ensures Level(Serve(s, LeastConnections, ips).servers)
    decreases |ips|
  {
    if ips != [] {
      LeastConnectionsStaysLevel(s, ips[..|ips| - 1]);
      SelectStaysLevel(Serve(s, LeastConnections, ips[..|ips| - 1]), ips[|ips| - 1]);
    }
  }

  lemma SelectStaysLevel(s: State, ip: string)
    requires s.servers != [] && Level(s.servers)
    ensures Level(Select(s, LeastConnections, ip).servers)
  {
  }

  /** The active count of a server grows by its selections. */
  lemma {:induction false} ActiveCountsPicks(s: State, algorithm: Algorithm, ips: seq<string>, i: nat)
    requires i < |s.servers|
    ensures Serve(s, algorithm, ips).servers[i].active == s.servers[i].active + Picks(s, algorithm, ips, i)
    decreases |ips|
  {
    if ips != [] {
      ActiveCountsPicks(s, algorithm, ips[..|ips| - 1], i);
    }
  }

  /** From no connections, least connections without releases selects the healthy
      servers equally often, up to one. */
  lemma LeastConnectionsIsFair(s: State, ips: seq<string>, i: nat, j: nat)
    requires i < |s.servers| && j < |s.servers| && s.servers[i].healthy && s.servers[j].healthy
    requires forall k | 0 <= k < |s.servers| :: s.servers[k].active == 0
    ensures Picks(s, LeastConnections, ips, i) <= Picks(s, LeastConnections, ips, j) + 1
  {
    LeastConnectionsStaysLevel(s, ips);
    ServeKeepsConfig(s, LeastConnections, ips);
    ActiveCountsPicks(s, LeastConnections, ips, i);
    ActiveCountsPicks(s, LeastConnections, ips, j);
  }

  // ---------- IP hash ----------

  /** The client always gets the same server, whatever the current index. */
  ghost predicate Sticky(servers: seq<Server>, ip: string)
    requires servers != []
  {
    forall a: nat, b: nat :: PickIpHash(servers, a, ip).0 == PickIpHash(servers, b, ip).0
  }

  /** Selection by address is sticky while the hashed server is healthy; once it
      is not, only when nothing else varies: a single server, or exactly one
      healthy one to fall back on. */
  lemma StickyIff(servers: seq<Server>, ip: string)
    requires servers != []
    ensures Sticky(servers, ip) <==>
            servers[Djb2(ip) % |servers|].healthy || |servers| == 1 || Rank(servers, |servers|) == 1
  {
    var n := |servers|;
    if !servers[Djb2(ip) % n].healthy {
      if Rank(servers, n) == 0 {
        if n > 1 {
          NobodyIsPicked(servers, 0);
          NobodyIsPicked(servers, 1);
          SmallResidue(1, n);
          assert PickIpHash(servers, 0, ip).0 == 0 && PickIpHash(servers, 1, ip).0 == 1;
        }
      } else if Rank(servers, n) == 1 {
        forall a: nat, b: nat
          ensures PickIpHash(servers, a, ip).0 == PickIpHash(servers, b, ip).0
        {
          RoundRobinTakesNextRank(servers, a);
          RoundRobinTakesNextRank(servers, b);
          RankIsUnique(servers, PickRoundRobin(servers, a).0, PickRoundRobin(servers, b).0);
        }
      } else {
        var i := LastHealthy(servers, n);
        var j := OtherHealthy(servers, i, n);
        HealthyIsPicked(servers, i);
        HealthyIsPicked(servers, j);
        assert PickIpHash(servers, i, ip).0 != PickIpHash(servers, j, ip).0;
      }
    }
  }

  /** With no healthy server, the one the index points at is picked after a full
      turn. */
  lemma NobodyIsPicked(servers: seq<Server>, current: nat)
    requires servers != [] && Rank(servers, |servers|) == 0
    ensures PickRoundRobin(servers, current) == (current % |servers|, current + 1 + |servers|)
  {
    var i := current % |servers|;
    var d := Distance(servers, i, 0);
    RankGrows(servers, 0, |servers|);
    assert d < |servers| ==> HealthyAfter(servers, i, d);
  }

  lemma HealthyIsPicked(servers: seq<Server>, i: nat)
    requires i < |servers| && servers[i].healthy
    ensures PickRoundRobin(servers, i).0 == i
  {
    SmallResidue(i, |servers|);
    assert HealthyAfter(servers, i, 0);
  }

  function LastHealthy(servers: seq<Server>, n: nat): (i: nat)
    requires n <= |servers| && Rank(servers, n) > 0
    ensures i < n && servers[i].healthy
  {
    if servers[n - 1].healthy then n - 1 else LastHealthy(servers, n - 1)
  }

  lemma {:induction false} OtherHealthy(servers: seq<Server>, i: nat, n: nat) returns (j: nat)
    requires i < |servers| && n <= |servers| && Rank(servers, n) > (if i < n then 1 else 0)
    ensures j < n && servers[j].healthy && j != i
  {
    j := n - 1;
    if !servers[j].healthy || j == i {
      j := OtherHealthy(servers, i, n - 1);
    }
  }
}
