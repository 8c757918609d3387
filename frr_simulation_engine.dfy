/** simulation_engine/frr_simulation_engine.py: depth-first forwarding in
    which a router walks a candidate index over the ranked list its policy
    answers, skipping the candidates whose link has failed.

    The source passes `routing_algorithm=algorithm` to `Router.get_next_hop`,
    which takes no such parameter, and advances `next_hop_candidates += 1`
    where the index is meant; the model follows the evident intent: the
    engine's policy is asked directly, and the index moves on. */
module FrrSimulation {
  import opened Common
  import opened Topology
  import opened Oracle
  import opened Packets
  import opened RoutingAlgorithm
  import opened Networks
  import opened Metrics
  import opened EngineInterface

  class FrrSimulationEngine {
    const network: Network
    const metrics: RoutingMetrics
    /** The `failed_edges` set shared with every other engine. */
    const failed: FailedEdges

    constructor (network: Network, failed: FailedEdges, debugPrint: bool := true)
      ensures this.network == network && this.failed == failed && fresh(metrics)
      ensures metrics.logs == [] && metrics.backtrackCounter == 0 && metrics.debugPrint == debugPrint
    {
      this.network := network;
      this.failed := failed;
      metrics := new RoutingMetrics(debugPrint);
    }

    /** The list policy answers `None` to some router on the way to `dest`. */
    ghost predicate ListRaises(algorithm: ListPolicy, dest: Node)
      reads network
    {
      exists x, v :: x in network.routers && algorithm(x, dest, network.topology, v).None?
    }

    /** `_find_route_recursive(packet, n, algorithm)`. An unknown router
        changes nothing. A `False` return leaves the path as it was on entry,
        with the router's backtrack counted and logged towards the previous
        router; a `True` return has pushed a duplicate-free route of routers,
        none visited before, from `n` to the destination, crossing no failed
        link, and logged it. The search always ends, and aborts only when
        the policy answers `None`. */
    method FindRouteRecursive(packet: Packet, n: Node, algorithm: ListPolicy) returns (outcome: Outcome, ghost route: seq<Node>)
      requires network.Valid() && ListSound(algorithm) && packet.Valid()
      requires n in network.routers ==> n !in packet.visited
      modifies packet, metrics
      ensures packet.Valid() && old(packet.visited) <= packet.visited
      ensures n in network.routers ==> n in packet.visited
      ensures n !in network.routers ==>
                && outcome == Exhausted && packet.path == old(packet.path) && packet.visited == old(packet.visited)
                && metrics.logs == old(metrics.logs) && metrics.backtrackCounter == old(metrics.backtrackCounter)
      ensures outcome != Unbounded
      ensures outcome == Exhausted ==> packet.path == old(packet.path)
      ensures outcome == Reached ==>
                && packet.path == old(packet.path) + route
                && Route(network.topology, route, n, packet.destination)
                && AvoidsFailures(route, failed.edges)
                && (forall x :: x in route ==> x in network.routers && x !in old(packet.visited))
                && metrics.logs != [] && Last(metrics.logs) == Success(packet.path)
      ensures outcome == Exhausted && n in network.routers ==>
                && old(metrics.backtrackCounter) < metrics.backtrackCounter
                && (old(packet.path) != [] ==> metrics.logs != [] && Last(metrics.logs) == Backtrack(n, Last(old(packet.path))))
      ensures outcome == Raised ==> ListRaises(algorithm, packet.destination)
      ensures old(metrics.backtrackCounter) <= metrics.backtrackCounter
      decreases |network.routers.Keys - packet.visited|, 0
    {
      route := [];
      if n !in network.routers {
        return Exhausted, [];
      }
      packet.RecordHop(n);
      if n == packet.destination {
        metrics.LogSuccess(packet.path);
        return Reached, [n];
      }
      GrowShrinks(network.routers.Keys, old(packet.visited), packet.visited, n);
      assert old(packet.path) != [] ==> packet.path[|packet.path| - 2] == Last(old(packet.path));
      ghost var rest;
      outcome, rest := TryCandidates(packet, n, algorithm);
      route := [n] + rest;
    }

    /** The candidate loop of `_find_route_recursive` at router `n`, which
        has just been pushed. The list is asked for afresh on every pass and
        the index refers to the fresh list. A candidate over a failed link is
        logged as a failure and skipped; any other is forwarded to, and its
        failure is logged before the index moves on. Past the end of the
        list the router logs a backtrack and is popped. A `None` list raises,
        because its length is taken before it is compared with `None`. */
    method TryCandidates(packet: Packet, n: Node, algorithm: ListPolicy) returns (outcome: Outcome, ghost rest: seq<Node>)
      requires network.Valid() && ListSound(algorithm) && packet.Valid()
      requires n in network.routers && n in packet.visited && n != packet.destination
      requires packet.path != [] && Last(packet.path) == n
      modifies packet, metrics
      ensures packet.Valid() && old(packet.visited) <= packet.visited
      ensures outcome != Unbounded
      ensures outcome == Exhausted ==> packet.path == old(packet.path)[..|old(packet.path)| - 1]
      ensures outcome == Reached ==>
                && packet.path == old(packet.path) + rest
                && Route(network.topology, [n] + rest, n, packet.destination)
                && AvoidsFailures([n] + rest, failed.edges)
                && (forall x :: x in rest ==> x in network.routers && x !in old(packet.visited))
                && metrics.logs != [] && Last(metrics.logs) == Success(packet.path)
      ensures outcome == Exhausted ==>
                && old(metrics.backtrackCounter) < metrics.backtrackCounter
                && (|old(packet.path)| > 1 ==>
                      metrics.logs != [] && Last(metrics.logs) == Backtrack(n, old(packet.path)[|old(packet.path)| - 2]))
      ensures outcome == Raised ==> ListRaises(algorithm, packet.destination)
      ensures old(metrics.backtrackCounter) <= metrics.backtrackCounter
      decreases |network.routers.Keys - packet.visited|, 2
    {
      rest := [];
      var dest := packet.destination;
      var index := 0;
      ghost var bound := |Elements(Neighbors(network.topology, n))|;
      while true
        invariant packet.Valid() && packet.path == old(packet.path)
        invariant old(packet.visited) <= packet.visited
        invariant |network.routers.Keys - packet.visited| <= |network.routers.Keys - old(packet.visited)|
        invariant old(metrics.backtrackCounter) <= metrics.backtrackCounter
        decreases |network.routers.Keys - packet.visited|, bound - index
      {
        var candidates := algorithm(n, dest, network.topology, packet.visited);
        if candidates.None? {
          assert algorithm(n, dest, network.topology, packet.visited).None?;
          return Raised, [];
        }
        var hops := candidates.value;
        if index >= |hops| {
          BacktrackFrom(packet, metrics, n);
          return Exhausted, [];
        }
        ListAnswer(algorithm, network.topology, n, dest, packet.visited, index);
        var hop := hops[index];
        if (n, hop) in failed.edges {
          metrics.LogFailure(n, hop);
          index := index + 1;
          continue;
        }
        var result, sub := ForwardCandidate(packet, n, hop, algorithm);
        if result != Exhausted {
          return result, sub;
        }
        index := index + 1;
      }
    }

    /** The forwarding step of the candidate loop: the forwarding is logged,
        the search goes on from `hop`, and a `False` answer is logged as a
        failure of the link. */
    method ForwardCandidate(packet: Packet, n: Node, hop: Node, algorithm: ListPolicy) returns (outcome: Outcome, ghost rest: seq<Node>)
      requires network.Valid() && ListSound(algorithm) && packet.Valid()
      requires n in network.routers && n in packet.visited && n != packet.destination
      requires packet.path != [] && Last(packet.path) == n
      requires CanForward(network.topology, n, packet.visited, hop) && (n, hop) !in failed.edges
      modifies packet, metrics
      ensures packet.Valid() && old(packet.visited) <= packet.visited
      ensures outcome != Unbounded
      ensures outcome == Exhausted ==>
                && packet.path == old(packet.path)
                && |network.routers.Keys - packet.visited| <= |network.routers.Keys - old(packet.visited)|
      ensures outcome == Reached ==>
                && packet.path == old(packet.path) + rest
                && Route(network.topology, [n] + rest, n, packet.destination)
                && AvoidsFailures([n] + rest, failed.edges)
                && (forall x :: x in rest ==> x in network.routers && x !in old(packet.visited))
                && metrics.logs != [] && Last(metrics.logs) == Success(packet.path)
      ensures outcome == Raised ==> ListRaises(algorithm, packet.destination)
      ensures old(metrics.backtrackCounter) <= metrics.backtrackCounter
      decreases |network.routers.Keys - packet.visited|, 1
    {
      metrics.LogForwarding(n, hop);
      outcome, rest := FindRouteRecursive(packet, hop, algorithm);
      if outcome == Reached {
        assert n in old(packet.visited);
        RouteCons(network.topology, n, rest, packet.destination);
        AvoidsCons(n, rest, failed.edges);
      } else if outcome == Exhausted {
        metrics.LogFailure(n, hop);
        if hop in network.routers {
          GrowShrinks(network.routers.Keys, old(packet.visited), packet.visited, hop);
        }
      }
    }

    /** `simulate_routing(source, dest, algorithm, experiment_name, file_path)`:
        as the base engine, and the CSV row for the route is produced under
        the policy's `name`. A failure yields the empty path and no row. */
    method SimulateRouting(source: Node, dest: Node, algorithm: ListPolicy, algorithmName: string, experimentName: string, lib: Library)
      returns (result: RunResult, report: Option<Report>, row: Option<CsvRow>)
      requires network.Valid() && ListSound(algorithm)
      modifies metrics
      ensures result.NotInNetwork? <==> source !in network.routers || dest !in network.routers
      ensures result.NotInNetwork? ==> report.None? && row.None? && metrics.logs == old(metrics.logs)
      ensures result.Completed? && result.success ==>
                && Route(network.topology, result.path, source, dest)
                && AvoidsFailures(result.path, failed.edges)
                && report.Some? && report.value.routeLength == |result.path| - 1
                && row.Some? && row.value.algorithm == algorithmName && row.value.experimentName == experimentName
                && row.value.routeLength == |result.path| - 1 && row.value.backtracks == metrics.backtrackCounter
      ensures result.Completed? && !result.success ==> result.path == [] && report.None? && row.None?
      ensures result.Aborted? ==> result.outcome == Raised && report.None? && row.None?
      ensures result.Aborted? ==> ListRaises(algorithm, dest)
    {
      report, row := None, None;
      if source !in network.routers || dest !in network.routers {
        return NotInNetwork, None, None;
      }
      var packet := new Packet(source, dest);
      var outcome, route := FindRouteRecursive(packet, source, algorithm);
      if outcome == Raised {
        return Aborted(outcome), None, None;
      }
      report := metrics.ComputeFinalMetrics(packet, network.topology, lib);
      row := metrics.SaveMetricsToCsv(experimentName, algorithmName, packet, network.topology, lib);
      return Completed(outcome == Reached, packet.path), report, row;
    }

    /** `add_edge_failure((u, v))`, on the set every engine shares. */
    method AddEdgeFailure(u: Node, v: Node)
      modifies failed
      ensures failed.edges == old(failed.edges) + {(u, v), (v, u)}
      ensures old(failed.Symmetric()) ==> failed.Symmetric()
    {
      failed.AddEdgeFailure(u, v);
    }
  }
}
