/** The load balancer on values: what each algorithm selects, and what runs of
    selections, releases, failures and health checks keep. */
module Balancing {
  import opened Hashing
  import opened Options
  import opened Rotation

  datatype Algorithm = RoundRobin | LeastConnections | IpHash | WeightedRoundRobin

  datatype Server = Server(weight: int, active: int, total: nat, failed: nat, healthy: bool, lastCheck: int)

  const INT_MAX: int := 0x7fff_ffff

  datatype State = State(servers: seq<Server>, current: nat)

  // ---------- Round robin ----------

  /** The position `d` steps after `i` around a ring of `n`. */
  function Ring(i: nat, d: nat, n: nat): (p: nat)
    requires i < n && d <= n
    ensures p < n
  {
    if i + d < n then i + d else i + d - n
  }

  predicate HealthyAfter(servers: seq<Server>, i: nat, d: nat)
    requires i < |servers| && d <= |servers|
  {
    servers[Ring(i, d, |servers|)].healthy
  }

  /** How many steps around the ring from `i`, at least `d`, to the first healthy
      server; a full turn if there is none. */
  function Distance(servers: seq<Server>, i: nat, d: nat): (r: nat)
    requires i < |servers| && d <= |servers|
    ensures d <= r <= |servers|
    ensures forall e | d <= e < r :: !HealthyAfter(servers, i, e)
    ensures r < |servers| ==> HealthyAfter(servers, i, r)
    decreases |servers| - d
  {
    if d == |servers| || HealthyAfter(servers, i, d) then d else Distance(servers, i, d + 1)
  }

  /** The first healthy server from the current index on, in ring order. */
  function PickRoundRobin(servers: seq<Server>, current: nat): (r: (nat, nat))
    requires servers != []
    ensures r.0 < |servers|
  {
    var i := current % |servers|;
    var d := Distance(servers, i, 0);
    (Ring(i, d, |servers|), current + 1 + d)
  }

  // ---------- Least connections ----------

  /** The first server among the first `n` that is healthy and has the fewest
      connections, below the largest C int. */
  function PickLeast(servers: seq<Server>, n: nat): (r: Option<nat>)
    requires n <= |servers|
    ensures r.None? ==> forall j | 0 <= j < n :: servers[j].healthy ==> servers[j].active >= INT_MAX
    ensures r.Some? ==>
              && r.value < n && servers[r.value].healthy && servers[r.value].active < INT_MAX
              && (forall j | 0 <= j < n :: servers[j].healthy ==> servers[r.value].active <= servers[j].active)
              && (forall j | 0 <= j < r.value :: servers[j].healthy ==> servers[r.value].active < servers[j].active)
  {
    if n == 0 then None else
    var r, s := PickLeast(servers, n - 1), servers[n - 1];
    if s.healthy && s.active < (if r.Some? then servers[r.value].active else INT_MAX) then Some(n - 1) else r
  }

  // ---------- Weighted round robin ----------

  /** The weight of the healthy servers among the first `n`. */
  function HealthyWeight(servers: seq<Server>, n: nat): int
    requires n <= |servers|
  {
    if n == 0 then 0
    else HealthyWeight(servers, n - 1) + (if servers[n - 1].healthy then servers[n - 1].weight else 0)
  }

  /** The first healthy server from `i` on whose accumulated weight passes the
      target. */
  function PickByWeight(servers: seq<Server>, target: int, i: nat): (r: Option<nat>)
    requires i <= |servers|
    ensures r.None? ==> forall j | i <= j < |servers| :: servers[j].healthy ==> HealthyWeight(servers, j + 1) <= target
    ensures r.Some? ==>
              && i <= r.value < |servers| && servers[r.value].healthy && HealthyWeight(servers, r.value + 1) > target
              && forall j | i <= j < r.value :: servers[j].healthy ==> HealthyWeight(servers, j + 1) <= target
    decreases |servers| - i
  {
    if i == |servers| then None
    else if servers[i].healthy && HealthyWeight(servers, i + 1) > target then Some(i)
    else PickByWeight(servers, target, i + 1)
  }

  // ---------- Selection ----------

  function PickIpHash(servers: seq<Server>, current: nat, ip: string): (nat, nat)
    requires servers != []
  {
    var i := Djb2(ip) % |servers|;
    if servers[i].healthy then (i, current) else PickRoundRobin(servers, current)
  }

  /** The selected server, if any, and the next current index. */
  function Pick(s: State, algorithm: Algorithm, ip: string): (Option<nat>, nat)
    requires s.servers != []
  {
    match algorithm
    case RoundRobin => var (i, current) := PickRoundRobin(s.servers, s.current); (Some(i), current)
    case LeastConnections => (PickLeast(s.servers, |s.servers|), s.current)
    case IpHash => var (i, current) := PickIpHash(s.servers, s.current, ip); (Some(i), current)
    case WeightedRoundRobin =>
      var total := HealthyWeight(s.servers, |s.servers|);
      if total == 0 then (None, s.current)
      else (PickByWeight(s.servers, s.current % total, 0), s.current + 1)
  }

  lemma PickInRange(s: State, algorithm: Algorithm, ip: string)
    requires s.servers != []
    ensures Pick(s, algorithm, ip).0.Some? ==> Pick(s, algorithm, ip).0.value < |s.servers|
  {
  }

  function Select(s: State, algorithm: Algorithm, ip: string): State
    requires s.servers != []
  {
    PickInRange(s, algorithm, ip);
    var (choice, current) := Pick(s, algorithm, ip);
    if choice.None? then s.(current := current) else
    var i := choice.value;
    State(s.servers[i := s.servers[i].(active := s.servers[i].active + 1, total := s.servers[i].total + 1)], current)
  }

  function Release(s: State, i: nat): State
    requires i < |s.servers|
  {
    var server := s.servers[i];
    if server.active > 0 then s.(servers := s.servers[i := server.(active := server.active - 1)]) else s
  }

  function MarkFailed(s: State, i: nat): State
    requires i < |s.servers|
  {
    var failed := s.servers[i].failed + 1;
    s.(servers := s.servers[i := s.servers[i].(failed := failed, healthy := s.servers[i].healthy && failed <= 5)])
  }

  /** A check of one server: due after thirty seconds, decided by its probe. */
  function Checked(s: Server, now: int, probe: bool): Server {
    if now - s.lastCheck < 30 then s
    else if probe then s.(healthy := true, failed := 0, lastCheck := now)
    else s.(healthy := false, lastCheck := now)
  }

  function CheckHealth(s: State, now: int, probes: seq<bool>): State
    requires |probes| == |s.servers|
  {
    s.(servers := seq(|s.servers|, i requires 0 <= i < |s.servers| => Checked(s.servers[i], now, probes[i])))
  }

  // ---------- Round robin is fair ----------

  /** How many of the first `n` servers are healthy. */
  function Rank(servers: seq<Server>, n: nat): (r: nat)
    requires n <= |servers|
    ensures r <= n
  {
    if n == 0 then 0 else Rank(servers, n - 1) + (if servers[n - 1].healthy then 1 else 0)
  }

  lemma {:induction false} RankGrows(servers: seq<Server>, a: nat, b: nat)
    requires a <= b <= |servers|
    ensures Rank(servers, a) <= Rank(servers, b)
    ensures (forall j | a <= j < b :: !servers[j].healthy) ==> Rank(servers, a) == Rank(servers, b)
    ensures forall j | a <= j < b && servers[j].healthy :: Rank(servers, a) < Rank(servers, b)
  {
    if a < b {
      RankGrows(servers, a, b - 1);
    }
  }

  /** The rank of the server that comes next from position `i`. */
  function NextRank(servers: seq<Server>, i: nat): (r: nat)
    requires i <= |servers| && Rank(servers, |servers|) > 0
    ensures r < Rank(servers, |servers|)
  {
    if Rank(servers, i) < Rank(servers, |servers|) then Rank(servers, i) else 0
  }

  /** With a healthy server around, the search ends at one before a full turn. */
  lemma SomeoneHealthy(servers: seq<Server>, i: nat)
    requires i < |servers| && Rank(servers, |servers|) > 0
    ensures Distance(servers, i, 0) < |servers|
  {
    var n := |servers|;
    if Distance(servers, i, 0) == n {
      forall j | 0 <= j < n
        ensures !servers[j].healthy
      {
        assert !HealthyAfter(servers, i, if j >= i then j - i else n + j - i);
      }
      RankGrows(servers, 0, n);
    }
  }

  /** Round robin picks a healthy server, the next one by rank, and goes on
      behind it. */
  lemma RoundRobinTakesNextRank(servers: seq<Server>, current: nat)
    requires servers != [] && Rank(servers, |servers|) > 0
    ensures var (p, next) := PickRoundRobin(servers, current);
            && servers[p].healthy
            && Rank(servers, p) == NextRank(servers, current % |servers|)
            && next % |servers| == Ring(p, 1, |servers|)
  {
    var n := |servers|;
    var i := current % n;
    var d := Distance(servers, i, 0);
    SomeoneHealthy(servers, i);
    assert HealthyAfter(servers, i, d);
    IndexAfterPick(current, d, n);
    if i + d < n {
      forall j | i <= j < i + d
        ensures !servers[j].healthy
      {
        assert !HealthyAfter(servers, i, j - i);
      }
      RankGrows(servers, i, i + d);
      RankGrows(servers, i + d, n);
    } else {
      RingWraps(servers, i, d);
    }
  }

  lemma RingWraps(servers: seq<Server>, i: nat, d: nat)
    requires i < |servers| && Rank(servers, |servers|) > 0
    requires d == Distance(servers, i, 0) < |servers| && i + d >= |servers|
    ensures Rank(servers, i + d - |servers|) == 0 && NextRank(servers, i) == 0
  {
    var n := |servers|;
    forall j | i <= j < n
      ensures !servers[j].healthy
    {
      assert !HealthyAfter(servers, i, j - i);
    }
    forall j | 0 <= j < i + d - n
      ensures !servers[j].healthy
    {
      assert !HealthyAfter(servers, i, n + j - i);
    }
    RankGrows(servers, 0, i + d - n);
    RankGrows(servers, i, n);
  }

  /** The index behind the pick is one past the picked position, around the
      ring. */
  lemma IndexAfterPick(current: nat, d: nat, n: nat)
    requires n > 0 && d < n
    ensures (current + 1 + d) % n == Ring(Ring(current % n, d, n), 1, n)
  {
    var q, r := current / n, current % n;
    var turns := if r + d + 1 < n then 0 else if r + d + 1 < 2 * n then 1 else 2;
    Distributes(n, q + turns, q);
    DivisionIsUnique(n, (current + 1 + d) / n, q + turns, (current + 1 + d) % n, r + d + 1 - turns * n);
  }

  // ---------- Runs of selections ----------

  /** The state after serving the clients in turn. */
  function Serve(s: State, algorithm: Algorithm, ips: seq<string>): (r: State)
    requires s.servers != []
    ensures |r.servers| == |s.servers|
    decreases |ips|
  {
    if ips == [] then s else Select(Serve(s, algorithm, ips[..|ips| - 1]), algorithm, ips[|ips| - 1])
  }

  /** How often server `i` was selected. */
  function Picks(s: State, algorithm: Algorithm, ips: seq<string>, i: nat): nat
    requires s.servers != []
    decreases |ips|
  {
    if ips == [] then 0 else
    var pre, ip := ips[..|ips| - 1], ips[|ips| - 1];
    Picks(s, algorithm, pre, i) + (if Pick(Serve(s, algorithm, pre), algorithm, ip).0 == Some(i) then 1 else 0)
  }

  /** Same health and weights, whatever the counters. */
  predicate SameConfig(a: seq<Server>, b: seq<Server>) {
    |a| == |b| && forall i | 0 <= i < |a| :: a[i].healthy == b[i].healthy && a[i].weight == b[i].weight
  }

  lemma {:induction false} ServeKeepsConfig(s: State, algorithm: Algorithm, ips: seq<string>)
    requires s.servers != []
    ensures SameConfig(Serve(s, algorithm, ips).servers, s.servers)
    decreases |ips|
  {
    if ips != [] {
      ServeKeepsConfig(s, algorithm, ips[..|ips| - 1]);
    }
  }

  lemma {:induction false} ConfigDecidesRank(a: seq<Server>, b: seq<Server>, n: nat)
    requires SameConfig(a, b) && n <= |a|
    ensures Rank(a, n) == Rank(b, n) && HealthyWeight(a, n) == HealthyWeight(b, n)
  {
    if n > 0 {
      ConfigDecidesRank(a, b, n - 1);
    }
  }

  /** Two healthy servers of the same rank are the same server. */
  lemma RankIsUnique(servers: seq<Server>, i: nat, j: nat)
    requires i < |servers| && j < |servers| && servers[i].healthy && servers[j].healthy
    requires Rank(servers, i) == Rank(servers, j)
    ensures i == j
  {
    if i < j {
      RankGrows(servers, i, j);
    } else if j < i {
      RankGrows(servers, j, i);
    }
  }

  /** Advancing one rank, around the healthy servers. */
  lemma NextRankAdvances(servers: seq<Server>, p: nat)
    requires p < |servers| && servers[p].healthy
    ensures Rank(servers, p) < Rank(servers, |servers|)
    ensures NextRank(servers, Ring(p, 1, |servers|)) == Ring(Rank(servers, p), 1, Rank(servers, |servers|))
  {
    RankGrows(servers, p, |servers|);
    RankGrows(servers, p + 1, |servers|);
  }
}
