/** The load balancer of `loadbalancer.c`: a list of backends whose counters and
    health are updated in place. */
module LoadBalancer {
  import opened Balancing
  import opened Hashing
  import opened Options
  import opened Sequences

  class Backend {
    const host: string
    const port: int
    const weight: int
    var activeConnections: int
    var totalRequests: nat
    var failedRequests: nat
    var isHealthy: bool
    var lastHealthCheck: int

    constructor (host: string, port: int, weight: int, now: int)
      ensures this.host == host && this.port == port
      ensures View() == Server(weight, 0, 0, 0, true, now)
    {
      this.host, this.port, this.weight := host, port, weight;
      activeConnections, totalRequests, failedRequests, isHealthy, lastHealthCheck := 0, 0, 0, true, now;
    }

    function View(): Server
      reads this
    {
      Server(weight, activeConnections, totalRequests, failedRequests, isHealthy, lastHealthCheck)
    }
  }

  ghost function Views(bs: seq<Backend>): (vs: seq<Server>)
    reads bs
    ensures |vs| == |bs|
    ensures forall i | 0 <= i < |bs| :: vs[i] == bs[i].View()
  {
    seq(|bs|, i requires 0 <= i < |bs| reads bs => bs[i].View())
  }

  /** A backend of the configuration; without a list of weights each weighs one. */
  datatype Config = Config(host: string, port: int, weight: Option<int>) {
    function Weight(): int {
      if weight.Some? then weight.value else 1
    }
  }

  class Balancer {
    const algorithm: Algorithm
    const servers: seq<Backend>
    var currentIndex: nat

    /** The list never changes after `loadbalancer_init`; it is not empty. */
    predicate Valid() {
      servers != [] && Distinct(servers)
    }

    ghost function Model(): State
      reads this, servers
    {
      State(Views(servers), currentIndex)
    }

    /** `loadbalancer_init`: each backend goes to the head of the list. The clock is
        read once for each. */
    constructor (algorithm: Algorithm, configs: seq<Config>, host: string, port: int, clock: nat -> int)
      ensures Valid() && fresh(servers) && this.algorithm == algorithm && Model().current == 0
      ensures var cs := if configs == [] then [Config(host, port, Some(1))] else configs;
              && |servers| == |cs|
              && forall i | 0 <= i < |cs| ::
                   var k := |cs| - 1 - i;
                   var weight := if cs[k].weight.Some? then cs[k].weight.value else 1;
                   && servers[i].host == cs[k].host && servers[i].port == cs[k].port
                   && Model().servers[i] == Server(weight, 0, 0, 0, true, clock(k))
    {
      var cs := if configs == [] then [Config(host, port, None)] else configs;
      var list: seq<Backend> := [];
      for k := 0 to |cs|
        invariant |list| == k && fresh(list) && Distinct(list)
        invariant forall i | 0 <= i < k ::
                    var c := k - 1 - i;
                    && list[i].host == cs[c].host && list[i].port == cs[c].port
                    && list[i].View() == Server(cs[c].Weight(), 0, 0, 0, true, clock(c))
      {
        var b := new Backend(cs[k].host, cs[k].port, cs[k].Weight(), clock(k));
        list := [b] + list;
      }
      this.algorithm, servers, currentIndex := algorithm, list, 0;
    }

    /** `lb_select_round_robin`: walks to the current index, then on around the
        list past unhealthy servers. */
    method SelectRoundRobin() returns (server: nat)
      requires Valid()
      modifies this`currentIndex
      ensures (server, currentIndex) == PickRoundRobin(Views(servers), old(currentIndex))
    {
      var target := currentIndex % |servers|;
      server := 0;
      while server < target
        invariant server <= target
      {
        server := server + 1;
      }
      currentIndex := currentIndex + 1;
      server := SkipUnhealthy(server);
    }

    /** The second loop of `lb_select_round_robin`. */
    method SkipUnhealthy(start: nat) returns (server: nat)
      requires Valid() && start < |servers|
      modifies this`currentIndex
      ensures var d := Distance(Views(servers), start, 0);
              server == Ring(start, d, |servers|) && currentIndex == old(currentIndex) + d
    {
      server := start;
      var attempts := 0;
      while !servers[server].isHealthy && attempts < |servers|
        invariant attempts <= |servers| && server == Ring(start, attempts, |servers|)
        invariant currentIndex == old(currentIndex) + attempts
        invariant Distance(Views(servers), start, 0) == Distance(Views(servers), start, attempts)
        decreases |servers| - attempts
      {
        server := if server + 1 < |servers| then server + 1 else 0;
        currentIndex := currentIndex + 1;
        attempts := attempts + 1;
      }
      assert attempts < |servers| ==> HealthyAfter(Views(servers), start, attempts);
    }

    /** `lb_select_least_connections`: the first of the healthy servers with the
        fewest connections. */
    method SelectLeastConnections() returns (selected: Option<nat>)
      ensures selected == PickLeast(Views(servers), |servers|)
    {
      selected := None;
      var minConnections := INT_MAX;
      for server := 0 to |servers|
        invariant selected == PickLeast(Views(servers), server)
        invariant minConnections == if selected.Some? then servers[selected.value].activeConnections else INT_MAX
      {
        if servers[server].isHealthy && servers[server].activeConnections < minConnections {
          minConnections := servers[server].activeConnections;
          selected := Some(server);
        }
      }
    }

    /** `lb_select_ip_hash`: the hashed server, or round robin if it is not
        healthy. */
    method SelectIpHash(ip: string) returns (server: nat)
      requires Valid()
      modifies this`currentIndex
      ensures (server, currentIndex) == PickIpHash(Views(servers), old(currentIndex), ip)
    {
      var hash := Hash(ip);
      var index := hash % |servers|;
      server := 0;
      while server < index
        invariant server <= index
      {
        server := server + 1;
      }
      if !servers[server].isHealthy {
        server := SelectRoundRobin();
      }
    }

    /** `lb_select_weighted_round_robin`. */
    method SelectWeightedRoundRobin() returns (selected: Option<nat>)
      requires Valid()
      modifies this`currentIndex
      ensures (selected, currentIndex) == Pick(State(Views(servers), old(currentIndex)), WeightedRoundRobin, "")
    {
      var totalWeight := 0;
      for server := 0 to |servers|
        invariant totalWeight == HealthyWeight(Views(servers), server)
      {
        if servers[server].isHealthy {
          totalWeight := totalWeight + servers[server].weight;
        }
      }
      if totalWeight == 0 {
        return None;
      }
      selected := FindShare(currentIndex % totalWeight);
      currentIndex := currentIndex + 1;
    }

    /** The second loop of `lb_select_weighted_round_robin`. */
    method FindShare(target: int) returns (selected: Option<nat>)
      ensures selected == PickByWeight(Views(servers), target, 0)
    {
      var currentWeight, server := 0, 0;
      selected := None;
      while server < |servers|
        invariant server <= |servers| && selected == None
        invariant currentWeight == HealthyWeight(Views(servers), server)
        invariant PickByWeight(Views(servers), target, 0) == PickByWeight(Views(servers), target, server)
      {
        if servers[server].isHealthy {
          currentWeight := currentWeight + servers[server].weight;
          if currentWeight > target {
            return Some(server);
          }
        }
        server := server + 1;
      }
    }

    /** The switch over the configured algorithm. */
    method Choose(ip: string) returns (choice: Option<nat>)
      requires Valid()
      modifies this`currentIndex
      ensures (choice, currentIndex) == Pick(old(Model()), algorithm, ip)
    {
      match algorithm {
        case RoundRobin =>
          var i := SelectRoundRobin();
          choice := Some(i);
        case LeastConnections =>
          choice := SelectLeastConnections();
        case IpHash =>
          var i := SelectIpHash(ip);
          choice := Some(i);
        case WeightedRoundRobin =>
          choice := SelectWeightedRoundRobin();
      }
    }

    /** `loadbalancer_select_backend`: selects by the configured algorithm and
        counts the connection. */
    method SelectBackend(ip: string) returns (server: Option<Backend>)
      requires Valid()
      modifies this, servers
      ensures Model() == Select(old(Model()), algorithm, ip)
      ensures var choice := Pick(old(Model()), algorithm, ip).0;
              if choice.None? then server == None
              else choice.value < |servers| && server == Some(servers[choice.value])
    {
      PickInRange(Model(), algorithm, ip);
      ghost var before := Model();
      var choice := Choose(ip);
      if choice.None? {
        return None;
      }
      var b := servers[choice.value];
      b.activeConnections := b.activeConnections + 1;
      b.totalRequests := b.totalRequests + 1;
      assert Views(servers) == Select(before, algorithm, ip).servers;
      return Some(b);
    }

    /** `loadbalancer_release_backend`: never below zero; no server, no effect. */
    method ReleaseBackend(server: Option<Backend>)
      requires Valid() && (server.Some? ==> server.value in servers)
      modifies servers
      ensures Model() == if server.None? then old(Model())
                         else Release(old(Model()), IndexOf(servers, server.value))
    {
      if server.None? {
        return;
      }
      ghost var before := Model();
      if server.value.activeConnections > 0 {
        server.value.activeConnections := server.value.activeConnections - 1;
      }
      assert Views(servers) == Release(before, IndexOf(servers, server.value)).servers;
    }

    /** `loadbalancer_mark_failed`: the sixth failure makes a server unhealthy. */
    method MarkBackendFailed(server: Option<Backend>)
      requires Valid() && (server.Some? ==> server.value in servers)
      modifies servers
      ensures Model() == if server.None? then old(Model())
                         else MarkFailed(old(Model()), IndexOf(servers, server.value))
    {
      if server.None? {
        return;
      }
      ghost var before := Model();
      var b := server.value;
      b.failedRequests := b.failedRequests + 1;
      if b.failedRequests > 5 {
        b.isHealthy := false;
      }
      assert Views(servers) == MarkFailed(before, IndexOf(servers, b)).servers;
    }

    /** `loadbalancer_run_health_checks`; `probes` says which backends accept a
        connection. */
    method RunHealthChecks(now: int, probes: seq<bool>)
      requires Valid() && |probes| == |servers|
      modifies servers
      ensures Model() == CheckHealth(old(Model()), now, probes)
    {
      ghost var before := Model();
      for k := 0 to |servers|
        invariant forall i | 0 <= i < |servers| ::
                    servers[i].View() == if i < k then Checked(before.servers[i], now, probes[i]) else before.servers[i]
      {
        var server := servers[k];
        if now - server.lastHealthCheck >= 30 {
          if probes[k] {
            server.isHealthy := true;
            server.failedRequests := 0;
          } else {
            server.isHealthy := false;
          }
          server.lastHealthCheck := now;
        }
      }
      assert Views(servers) == CheckHealth(before, now, probes).servers;
    }
  }
}
