/** simulation_engine/interface.py and what the three forwarding engines
    share: how a recursive forwarding call ends, what `simulate_routing`
    hands back, the routes they build and the class-level `failed_edges`
    set that every engine instance shares. */
module EngineInterface {
  import opened Common
  import opened Topology
  import opened Packets
  import opened Metrics

  /** How a `_find_route_recursive` call ends: `True`, `False`, an exception
      propagating out of it, or a call that never returns. */
  datatype Outcome = Reached | Exhausted | Raised | Unbounded

  /** What `simulate_routing` yields: `None` for an unknown endpoint,
      `(success, path)`, or no value at all because the search raised or
      never returned. */
  datatype RunResult =
    | NotInNetwork
    | Completed(success: bool, path: seq<Node>)
    | Aborted(outcome: Outcome)

  /** The backtrack at the end of a router's loop in the base and fast-reroute
      engines: the router counts a backtrack, logged towards `path[-2]` when
      there is one, and is popped. */
  method BacktrackFrom(packet: Packet, metrics: RoutingMetrics, n: Node)
    requires packet.Valid() && packet.path != []
    modifies packet, metrics
    ensures packet.Valid() && packet.visited == old(packet.visited)
    ensures packet.path == old(packet.path)[..|old(packet.path)| - 1]
    ensures metrics.backtrackCounter == old(metrics.backtrackCounter) + 1
    ensures |old(packet.path)| > 1 ==>
              metrics.logs != [] && Last(metrics.logs) == Backtrack(n, old(packet.path)[|old(packet.path)| - 2])
  {
    var parent := if |packet.path| > 1 then Some(packet.path[|packet.path| - 2]) else None;
    metrics.LogBacktrack(n, parent);
    packet.RecordBacktrackingHop();
  }

  /** Every step of the sequence is a topology edge. */
  predicate Steps(g: Graph, route: seq<Node>)
  {
    forall i :: 0 <= i < |route| - 1 ==> HasEdge(g, route[i], route[i + 1])
  }

  /** A walk from `start` to `dest` over topology edges. */
  predicate Walk(g: Graph, route: seq<Node>, start: Node, dest: Node)
  {
    route != [] && route[0] == start && Last(route) == dest && Steps(g, route)
  }

  /** A walk that visits no node twice. */
  predicate Route(g: Graph, route: seq<Node>, start: Node, dest: Node)
  {
    Walk(g, route, start, dest) && Distinct(route)
  }

  /** No step of the walk crosses a failed link. */
  predicate AvoidsFailures(route: seq<Node>, failed: set<Edge>)
  {
    forall i :: 0 <= i < |route| - 1 ==> (route[i], route[i + 1]) !in failed
  }

  /** Stepping to the start of a sequence of edges, over an edge, gives a sequence of edges. */
  lemma StepsCons(g: Graph, x: Node, rest: seq<Node>)
    requires rest != [] && HasEdge(g, x, rest[0]) && Steps(g, rest)
    ensures Steps(g, [x] + rest)
  {
    var w := [x] + rest;
    forall i | 0 <= i < |w| - 1 ensures HasEdge(g, w[i], w[i + 1]) {
      if i > 0 {
        assert w[i] == rest[i - 1] && w[i + 1] == rest[i];
      }
    }
  }

  /** Stepping from a node not on a route to its start gives a route. */
  lemma RouteCons(g: Graph, x: Node, rest: seq<Node>, dest: Node)
    requires rest != [] && HasEdge(g, x, rest[0]) && x !in rest && Route(g, rest, rest[0], dest)
    ensures Route(g, [x] + rest, x, dest)
  {
    StepsCons(g, x, rest);
    var w := [x] + rest;
    forall i, j | 0 <= i < j < |w| ensures w[i] != w[j] {
      assert w[j] == rest[j - 1];
      if i > 0 {
        assert w[i] == rest[i - 1];
      }
    }
  }

  /** Stepping over a link that has not failed keeps a walk clear of failures. */
  lemma AvoidsCons(x: Node, rest: seq<Node>, failed: set<Edge>)
    requires rest != [] && (x, rest[0]) !in failed && AvoidsFailures(rest, failed)
    ensures AvoidsFailures([x] + rest, failed)
  {
    var w := [x] + rest;
    forall i | 0 <= i < |w| - 1 ensures (w[i], w[i + 1]) !in failed {
      if i > 0 {
        assert w[i] == rest[i - 1] && w[i + 1] == rest[i];
      }
    }
  }

  /** The class-level `failed_edges` set: one object that every engine
      holds a reference to, so a failure added through one engine is seen
      by all of them. */
  class FailedEdges {
    var edges: set<Edge>

    constructor ()
      ensures edges == {}
    {
      edges := {};
    }

    /** Every failed link is recorded in both orientations. */
    ghost predicate Symmetric()
      reads this
    {
      forall e :: e in edges ==> (e.1, e.0) in edges
    }

    /** `add_edge_failure((u, v))`: both orientations of the link fail. */
    method AddEdgeFailure(u: Node, v: Node)
      modifies this
      ensures edges == old(edges) + {(u, v), (v, u)}
      ensures old(Symmetric()) ==> Symmetric()
    {
      edges := edges + {(u, v)};
      edges := edges + {(v, u)};
    }
  }
}
