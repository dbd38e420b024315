/** Runs of the load balancer that mix selections, releases, failures and health
    checks. */
module BalancerRuns {
  import opened Balancing
  import opened Fairness
  import opened Options

  datatype Event =
    | Selected(ip: string)
    | Released(i: nat)
    | Failed(i: nat)
    | HealthChecked(now: int, probes: seq<bool>)

  /** The event names an existing server, or probes each one. */
  predicate Fits(n: nat, e: Event) {
    match e
    case Selected(_) => true
    case Released(i) => i < n
    case Failed(i) => i < n
    case HealthChecked(_, probes) => |probes| == n
  }

  function Next(s: State, algorithm: Algorithm, e: Event): (t: State)
    requires s.servers != [] && Fits(|s.servers|, e)
    ensures |t.servers| == |s.servers|
  {
    match e
    case Selected(ip) => Select(s, algorithm, ip)
    case Released(i) => Release(s, i)
    case Failed(i) => MarkFailed(s, i)
    case HealthChecked(now, probes) => CheckHealth(s, now, probes)
  }

  function Run(s: State, algorithm: Algorithm, es: seq<Event>): (t: State)
    requires s.servers != [] && forall e | e in es :: Fits(|s.servers|, e)
    ensures |t.servers| == |s.servers|
    decreases |es|
  {
    if es == [] then s else Next(Run(s, algorithm, es[..|es| - 1]), algorithm, es[|es| - 1])
  }

  /** `loadbalancer_init`: every server starts healthy, without connections or
      failures. */
  predicate Initial(s: State) {
    s.servers != [] && s.current == 0 &&
    forall i | 0 <= i < |s.servers| ::
      s.servers[i].healthy && s.servers[i].active == 0 && s.servers[i].failed == 0
  }

  // ---------- Failures ----------

  /** A healthy server has at most five recorded failures. */
  predicate FewFailures(s: State) {
    forall i | 0 <= i < |s.servers| :: s.servers[i].healthy ==> s.servers[i].failed <= 5
  }

  lemma {:induction false} HealthyMeansFewFailures(s: State, algorithm: Algorithm, es: seq<Event>)
    requires Initial(s) && forall e | e in es :: Fits(|s.servers|, e)
    ensures FewFailures(Run(s, algorithm, es))
    decreases |es|
  {
    if es != [] {
      HealthyMeansFewFailures(s, algorithm, es[..|es| - 1]);
    }
  }

  /** The clock at the last health check for which server `i` was due, thirty seconds
      or more after the one before. */
  function CheckedAt(s: State, es: seq<Event>, i: nat): int
    requires i < |s.servers|
    decreases |es|
  {
    if es == [] then s.servers[i].lastCheck else
    var before, e := CheckedAt(s, es[..|es| - 1], i), es[|es| - 1];
    if e.HealthChecked? && e.now - before >= 30 then e.now else before
  }

  /** The outcome of that check; without one the server counts as passed. */
  predicate Passed(s: State, es: seq<Event>, i: nat)
    requires i < |s.servers| && forall e | e in es :: Fits(|s.servers|, e)
    decreases |es|
  {
    es == [] ||
    (var pre, e := es[..|es| - 1], es[|es| - 1];
     assert Fits(|s.servers|, e);
     if e.HealthChecked? && e.now - CheckedAt(s, pre, i) >= 30 then e.probes[i] else Passed(s, pre, i))
  }

  /** The failures of server `i` since then. */
  function FailuresSince(s: State, es: seq<Event>, i: nat): nat
    requires i < |s.servers|
    decreases |es|
  {
    if es == [] then 0 else
    var pre, e := es[..|es| - 1], es[|es| - 1];
    if e.HealthChecked? && e.now - CheckedAt(s, pre, i) >= 30 then 0
    else FailuresSince(s, pre, i) + (if e == Failed(i) then 1 else 0)
  }

  /** A server is healthy if and only if the last check that it was due for passed, and
      it has had no more than five failures since. */
  lemma {:induction false} HealthyIff(s: State, algorithm: Algorithm, es: seq<Event>, i: nat)
    requires Initial(s) && i < |s.servers| && forall e | e in es :: Fits(|s.servers|, e)
    ensures var server := Run(s, algorithm, es).servers[i];
            && server.lastCheck == CheckedAt(s, es, i)
            && (server.healthy <==> Passed(s, es, i) && FailuresSince(s, es, i) <= 5)
            && (Passed(s, es, i) ==> server.failed == FailuresSince(s, es, i))
    decreases |es|
  {
    if es != [] {
      var pre, e := es[..|es| - 1], es[|es| - 1];
      HealthyIff(s, algorithm, pre, i);
      HealthAfter(Run(s, algorithm, pre), algorithm, e, i);
    }
  }

  /** What one event does to the health of one server. */
  lemma HealthAfter(s: State, algorithm: Algorithm, e: Event, i: nat)
    requires i < |s.servers| && Fits(|s.servers|, e)
    ensures var before, after := s.servers[i], Next(s, algorithm, e).servers[i];
            if e.HealthChecked? && e.now - before.lastCheck >= 30 then
              && after.lastCheck == e.now && after.healthy == e.probes[i]
              && after.failed == if e.probes[i] then 0 else before.failed
            else if e == Failed(i) then
              && after.lastCheck == before.lastCheck && after.failed == before.failed + 1
              && (after.healthy <==> before.healthy && before.failed < 5)
            else
              after.lastCheck == before.lastCheck && after.healthy == before.healthy && after.failed == before.failed
  {
  }

  // ---------- Requests ----------

  /** The request counter counts selections, and weights never change. */
  lemma {:induction false} RequestsAreSelections(s: State, algorithm: Algorithm, es: seq<Event>, i: nat)
    requires i < |s.servers| && forall e | e in es :: Fits(|s.servers|, e)
    ensures var server := Run(s, algorithm, es).servers[i];
            && server.total == s.servers[i].total + Selections(s, algorithm, es, i)
            && server.weight == s.servers[i].weight
    decreases |es|
  {
    if es != [] {
      var pre, e := es[..|es| - 1], es[|es| - 1];
      RequestsAreSelections(s, algorithm, pre, i);
      RequestsAfter(Run(s, algorithm, pre), algorithm, e, i);
    }
  }

  lemma RequestsAfter(s: State, algorithm: Algorithm, e: Event, i: nat)
    requires i < |s.servers| && Fits(|s.servers|, e)
    ensures var before, after := s.servers[i], Next(s, algorithm, e).servers[i];
            && after.total == before.total + (if e.Selected? && Pick(s, algorithm, e.ip).0 == Some(i) then 1 else 0)
            && after.weight == before.weight
  {
  }

  /** How many selections found a total weight to share. */
  function WeighedSelections(s: State, algorithm: Algorithm, es: seq<Event>): nat
    requires s.servers != [] && forall e | e in es :: Fits(|s.servers|, e)
    decreases |es|
  {
    if es == [] then 0 else
    var pre, e := es[..|es| - 1], es[|es| - 1];
    var servers := Run(s, algorithm, pre).servers;
    WeighedSelections(s, algorithm, pre) + (if e.Selected? && HealthyWeight(servers, |servers|) != 0 then 1 else 0)
  }

  /** The index moves by one with each of them, and never with least connections. */
  lemma {:induction false} IndexCountsSelections(s: State, es: seq<Event>)
    requires s.servers != [] && forall e | e in es :: Fits(|s.servers|, e)
    ensures Run(s, WeightedRoundRobin, es).current == s.current + WeighedSelections(s, WeightedRoundRobin, es)
    ensures Run(s, LeastConnections, es).current == s.current
    decreases |es|
  {
    if es != [] {
      IndexCountsSelections(s, es[..|es| - 1]);
    }
  }

  // ---------- Active connections ----------

  function Selections(s: State, algorithm: Algorithm, es: seq<Event>, i: nat): nat
    requires s.servers != [] && forall e | e in es :: Fits(|s.servers|, e)
    decreases |es|
  {
    if es == [] then 0 else
    var pre, e := es[..|es| - 1], es[|es| - 1];
    Selections(s, algorithm, pre, i) +
    (if e.Selected? && Pick(Run(s, algorithm, pre), algorithm, e.ip).0 == Some(i) then 1 else 0)
  }

  function Releases(es: seq<Event>, i: nat): nat
    decreases |es|
  {
    if es == [] then 0
    else Releases(es[..|es| - 1], i) + (if es[|es| - 1] == Released(i) then 1 else 0)
  }

  /** Every release of server `i` comes after a selection of its own. */
  predicate ReleasesMatch(s: State, algorithm: Algorithm, es: seq<Event>, i: nat)
    requires s.servers != [] && forall e | e in es :: Fits(|s.servers|, e)
    decreases |es|
  {
    Releases(es, i) <= Selections(s, algorithm, es, i) && (es == [] || ReleasesMatch(s, algorithm, es[..|es| - 1], i))
  }

  /** The active count is never below selections minus releases, and equals them
      exactly while every release has matched a selection. */
  lemma {:induction false} ActiveCountIff(s: State, algorithm: Algorithm, es: seq<Event>, i: nat)
    requires Initial(s) && i < |s.servers| && forall e | e in es :: Fits(|s.servers|, e)
    ensures var active := Run(s, algorithm, es).servers[i].active;
            var balance := Selections(s, algorithm, es, i) - Releases(es, i);
            && active >= 0 && active >= balance
            && (active == balance <==> ReleasesMatch(s, algorithm, es, i))
    decreases |es|
  {
    if es != [] {
      var pre, e := es[..|es| - 1], es[|es| - 1];
      ActiveCountIff(s, algorithm, pre, i);
      var t := Run(s, algorithm, pre);
      ActiveAfter(t, algorithm, e, i);
    }
  }

  /** What one event does to the active count of one server. */
  lemma ActiveAfter(s: State, algorithm: Algorithm, e: Event, i: nat)
    requires i < |s.servers| && Fits(|s.servers|, e) && s.servers[i].active >= 0
    ensures var before, after := s.servers[i].active, Next(s, algorithm, e).servers[i].active;
            match e
            case Selected(ip) => after == before + (if Pick(s, algorithm, ip).0 == Some(i) then 1 else 0)
            case Released(j) => after == if j == i && before > 0 then before - 1 else before
            case _ => after == before
  {
  }

  // ---------- Healthy choices ----------

  /** A server the algorithm may give: healthy, and with room or weight where the
      algorithm looks at those. */
  predicate Usable(s: State, algorithm: Algorithm, i: nat) {
    && i < |s.servers| && s.servers[i].healthy
    && (algorithm.LeastConnections? ==> s.servers[i].active < INT_MAX)
    && (algorithm.WeightedRoundRobin? ==> s.servers[i].weight > 0)
  }

  /** Every algorithm selects a healthy server exactly when there is a usable one;
      the weighted one needs that no healthy server weighs less than nothing. */
  lemma SelectionIsHealthyIff(s: State, algorithm: Algorithm, ip: string)
    requires s.servers != [] && (algorithm.WeightedRoundRobin? ==> HealthyWeightsNonNegative(s.servers))
    ensures var choice := Pick(s, algorithm, ip).0;
            choice.Some? && choice.value < |s.servers| && s.servers[choice.value].healthy
            <==> exists i :: Usable(s, algorithm, i)
  {
    var choice := Pick(s, algorithm, ip).0;
    if i :| Usable(s, algorithm, i) {
      UsableMeansHealthyChoice(s, algorithm, ip, i);
    }
    if choice.Some? && choice.value < |s.servers| && s.servers[choice.value].healthy {
      if algorithm.WeightedRoundRobin? {
        var j := HeaviestShare(s.servers, |s.servers|);
        assert Usable(s, algorithm, j);
      } else {
        assert Usable(s, algorithm, choice.value);
      }
    }
  }

  /** A non-zero total comes from a server of non-zero weight. */
  lemma {:induction false} HeaviestShare(servers: seq<Server>, n: nat) returns (j: nat)
    requires n <= |servers| && HealthyWeightsNonNegative(servers) && HealthyWeight(servers, n) != 0
    ensures j < n && servers[j].healthy && servers[j].weight > 0
  {
    j := n - 1;
    if !servers[j].healthy || servers[j].weight == 0 {
      j := HeaviestShare(servers, n - 1);
    }
  }

  lemma UsableMeansHealthyChoice(s: State, algorithm: Algorithm, ip: string, i: nat)
    requires Usable(s, algorithm, i)
    requires algorithm.WeightedRoundRobin? ==> HealthyWeightsNonNegative(s.servers)
    ensures var choice := Pick(s, algorithm, ip).0;
            choice.Some? && choice.value < |s.servers| && s.servers[choice.value].healthy
  {
    var n := |s.servers|;
    RankGrows(s.servers, i, n);
    match algorithm
    case RoundRobin => RoundRobinTakesNextRank(s.servers, s.current);
    case LeastConnections =>
    case IpHash => RoundRobinTakesNextRank(s.servers, s.current);
    case WeightedRoundRobin =>
      WeightGrows(s.servers, 0, i);
      WeightGrows(s.servers, i + 1, n);
      var target := s.current % HealthyWeight(s.servers, n);
      if PickByWeight(s.servers, target, 0).None? {
        StaysBelow(s.servers, target, n);
      }
  }
}
