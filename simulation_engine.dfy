/** simulation_engine.py: depth-first forwarding with backtracking. Each
    router asks its own policy for one next hop; a hop that fails to reach
    the destination is logged and the policy is asked again with the larger
    visited set; with no hop left the router backtracks. */
module Simulation {
  import opened Common
  import opened Topology
  import opened Oracle
  import opened Packets
  import opened RoutingAlgorithm
  import opened Routers
  import opened Networks
  import opened Metrics
  import opened EngineInterface

  class SimulationEngine {
    const network: Network
    const metrics: RoutingMetrics

    constructor (network: Network, debugPrint: bool := true)
      ensures this.network == network && fresh(metrics)
      ensures metrics.logs == [] && metrics.backtrackCounter == 0 && metrics.debugPrint == debugPrint
    {
      this.network := network;
      metrics := new RoutingMetrics(debugPrint);
    }

    /** Every router's policy only answers forwardable neighbours, as
        `MaxFlowRouting` does. */
    ghost predicate Sound()
      reads network, network.routers.Values
    {
      forall k :: k in network.routers && network.routers[k].routingAlgorithm.Some? ==>
        PairSound(network.routers[k].routingAlgorithm.value)
    }

    /** Some topology node has no router, so a hop to it fails without
        growing the visited set. */
    ghost predicate HasStrayNode()
      reads network
    {
      exists x :: x in NodeSet(network.topology) && x !in network.routers
    }

    /** Some router has no policy, so asking it for a hop raises. */
    ghost predicate HasBareRouter()
      reads network, network.routers.Values
    {
      exists x :: x in network.routers && network.routers[x].routingAlgorithm.None?
    }

    /** `_find_route_recursive(packet, n)`. An unknown router changes
        nothing. A `False` return leaves the path as it was on entry, with
        the router's backtrack counted and logged towards the previous
        router; a `True` return has pushed a duplicate-free route of
        routers, none visited before, from `n` to the destination, and
        logged it. The search aborts only on a router without a policy
        (`Raised`) or a hop to a node without a router (`Unbounded`). */
    method FindRouteRecursive(packet: Packet, n: Node) returns (outcome: Outcome, ghost route: seq<Node>)
      requires network.Valid() && Sound() && packet.Valid()
      requires n in network.routers ==> n !in packet.visited
      modifies packet, metrics
      ensures packet.Valid() && old(packet.visited) <= packet.visited
      ensures n in network.routers ==> n in packet.visited
      ensures n !in network.routers ==>
                && outcome == Exhausted && packet.path == old(packet.path) && packet.visited == old(packet.visited)
                && metrics.logs == old(metrics.logs) && metrics.backtrackCounter == old(metrics.backtrackCounter)
      ensures outcome == Exhausted ==> packet.path == old(packet.path)
      ensures outcome == Reached ==>
                && packet.path == old(packet.path) + route
                && Route(network.topology, route, n, packet.destination)
                && (forall x :: x in route ==> x in network.routers && x !in old(packet.visited))
                && metrics.logs != [] && Last(metrics.logs) == Success(packet.path)
      ensures outcome == Exhausted && n in network.routers ==>
                && old(metrics.backtrackCounter) < metrics.backtrackCounter
                && (old(packet.path) != [] ==> metrics.logs != [] && Last(metrics.logs) == Backtrack(n, Last(old(packet.path))))
      ensures outcome == Unbounded ==> HasStrayNode()
      ensures outcome == Raised ==> HasBareRouter()
      ensures old(metrics.backtrackCounter) <= metrics.backtrackCounter
      decreases |network.routers.Keys - packet.visited|, 0
    {
      route := [];
      if n !in network.routers {
        return Exhausted, [];
      }
      packet.RecordHop(n);
      if n == packet.destination {
        metrics.LogSuccess(packet.path);
        return Reached, [n];
      }
      GrowShrinks(network.routers.Keys, old(packet.visited), packet.visited, n);
      assert old(packet.path) != [] ==> packet.path[|packet.path| - 2] == Last(old(packet.path));
      ghost var rest;
      outcome, rest := TryNextHops(packet, n);
      route := [n] + rest;
    }

    /** The `while True` loop of `_find_route_recursive` at router `n`, which
        has just been pushed. The policy is asked again after every failed
        hop, with the visited set the failed search has grown. With no hop
        left the router logs a backtrack towards `path[-2]`, or towards
        nobody at the source, and is popped. A hop that is a topology node
        without a router fails without changing the visited set, so the
        unchanged policy answers it again for ever (`Unbounded`). */
    method TryNextHops(packet: Packet, n: Node) returns (outcome: Outcome, ghost rest: seq<Node>)
      requires network.Valid() && Sound() && packet.Valid()
      requires n in network.routers && n in packet.visited && n != packet.destination
      requires packet.path != [] && Last(packet.path) == n
      modifies packet, metrics
      ensures packet.Valid() && old(packet.visited) <= packet.visited
      ensures outcome == Exhausted ==> packet.path == old(packet.path)[..|old(packet.path)| - 1]
      ensures outcome == Reached ==>
                && packet.path == old(packet.path) + rest
                && Route(network.topology, [n] + rest, n, packet.destination)
                && (forall x :: x in rest ==> x in network.routers && x !in old(packet.visited))
                && metrics.logs != [] && Last(metrics.logs) == Success(packet.path)
      ensures outcome == Exhausted ==>
                && old(metrics.backtrackCounter) < metrics.backtrackCounter
                && (|old(packet.path)| > 1 ==>
                      metrics.logs != [] && Last(metrics.logs) == Backtrack(n, old(packet.path)[|old(packet.path)| - 2]))
      ensures outcome == Unbounded ==> HasStrayNode()
      ensures outcome == Raised ==> HasBareRouter()
      ensures old(metrics.backtrackCounter) <= metrics.backtrackCounter
      decreases |network.routers.Keys - packet.visited|, 1
    {
      rest := [];
      var router := network.routers[n];
      var dest := packet.destination;
      while true
        invariant packet.Valid() && packet.path == old(packet.path)
        invariant old(packet.visited) <= packet.visited
        invariant |network.routers.Keys - packet.visited| <= |network.routers.Keys - old(packet.visited)|
        invariant old(metrics.backtrackCounter) <= metrics.backtrackCounter
        decreases |network.routers.Keys - packet.visited|
      {
        var next := router.GetNextHop(packet, network.topology);
        match next {
          case NoAlgorithm =>
            assert network.routers[n].routingAlgorithm.None?;
            return Raised, [];
          case Answer(None) =>
            BacktrackFrom(packet, metrics, n);
            return Exhausted, [];
          case Answer(Some(hop)) =>
            assert CanForward(network.topology, n, packet.visited, hop);
            metrics.LogForwarding(n, hop);
            ghost var before := packet.visited;
            var result, sub := FindRouteRecursive(packet, hop);
            if result == Reached {
              assert n in before;
              RouteCons(network.topology, n, sub, dest);
              return Reached, sub;
            } else if result != Exhausted {
              return result, [];
            }
            metrics.LogFailure(n, hop);
            if hop !in network.routers {
              assert hop in NodeSet(network.topology);
              return Unbounded, [];
            }
            GrowShrinks(network.routers.Keys, before, packet.visited, hop);
        }
      }
    }

    /** The search of `simulate_routing` from a router: a fresh packet, then
        `_find_route_recursive` from the source. A `True` return leaves on
        the packet the route found; a `False` return leaves it empty. */
    method Search(source: Node, dest: Node) returns (outcome: Outcome, packet: Packet)
      requires network.Valid() && Sound() && source in network.routers
      modifies metrics
      ensures fresh(packet) && packet.destination == dest
      ensures outcome == Reached ==> Route(network.topology, packet.path, source, dest)
      ensures outcome == Exhausted ==> packet.path == []
      ensures outcome == Unbounded ==> HasStrayNode()
      ensures outcome == Raised ==> HasBareRouter()
    {
      packet := new Packet(source, dest);
      ghost var route;
      outcome, route := FindRouteRecursive(packet, source);
    }

    /** `simulate_routing(source, dest)`: `None` unless both ends are
        routers; otherwise the search from the source with a fresh packet,
        then the route metrics. A success yields a duplicate-free route from
        the source to the destination; a failure yields the empty path,
        every push having been popped again. */
    method SimulateRouting(source: Node, dest: Node, lib: Library) returns (result: RunResult, report: Option<Report>)
      requires network.Valid() && Sound()
      modifies metrics
      ensures result.NotInNetwork? <==> source !in network.routers || dest !in network.routers
      ensures result.NotInNetwork? ==> report.None? && metrics.logs == old(metrics.logs)
      ensures result.Completed? && result.success ==>
                && Route(network.topology, result.path, source, dest)
                && report.Some? && report.value.routeLength == |result.path| - 1
                && report.value.backtracks == metrics.backtrackCounter
      ensures result.Completed? && !result.success ==> result.path == [] && report.None?
      ensures result.Aborted? ==> result.outcome in {Raised, Unbounded} && report.None?
      ensures result.Aborted? && result.outcome == Unbounded ==> HasStrayNode()
      ensures result.Aborted? && result.outcome == Raised ==> HasBareRouter()
    {
      report := None;
      if source !in network.routers || dest !in network.routers {
        return NotInNetwork, None;
      }
      var outcome, packet := Search(source, dest);
      if outcome == Raised || outcome == Unbounded {
        return Aborted(outcome), None;
      }
      report := metrics.ComputeFinalMetrics(packet, network.topology, lib);
      return Completed(outcome == Reached, packet.path), report;
    }
  }
}
