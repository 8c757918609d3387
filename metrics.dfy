/** metrics.py: the log of routing events, the backtrack counter, and the
    route metrics computed once a packet has reached its destination. */
module Metrics {
  import opened Common
  import opened Topology
  import opened Oracle
  import opened Packets

  /** One log line; the formatted text is not modelled, only what it reports. */
  datatype LogEntry =
    | Forwarding(router: Node, nextHop: Node)
    | Failure(router: Node, failedNextHop: Node)
    | Backtrack(router: Node, previousRouter: Node)
    | Success(finalRoute: seq<Node>)

  /** The figures `compute_final_metrics` prints. `averageAlternateRoutes` is
      `None` where it prints "N/A (Route too short)". */
  datatype Report = Report(
    routeLength: nat,
    totalDegree: nat,
    alternateTotal: nat,
    interiorCount: nat,
    averageAlternateRoutes: Option<real>,
    backtracks: nat)

  /** The row `save_metrics_to_csv` appends (before `round(..., 3)`). */
  datatype CsvRow = CsvRow(
    experimentName: string,
    algorithm: string,
    routeLength: nat,
    totalDegree: nat,
    averageAlternateRoutes: real,
    backtracks: nat)

  /** A route worth measuring: non-empty and ending at the destination. */
  predicate RouteComplete(route: seq<Node>, dest: Node)
  {
    route != [] && Last(route) == dest
  }

  /** `route[1:-1]`: the route without its source and its destination. */
  function Interior(route: seq<Node>): seq<Node>
  {
    if |route| <= 2 then [] else route[1..|route| - 1]
  }

  /** `{a, b}` is one of the first `k` consecutive pairs of the route. */
  predicate OnRoute(route: seq<Node>, k: nat, a: Node, b: Node)
  {
    exists i :: 0 <= i < k && i + 1 < |route| &&
      ((route[i] == a && route[i + 1] == b) || (route[i] == b && route[i + 1] == a))
  }

  /** The topology copy after the removal loop has handled the first `k`
      consecutive pairs of the route: an edge joining a pair is removed if
      it is (still) present. */
  function Pruned(g: Graph, route: seq<Node>, k: nat): (r: Graph)
    requires WellFormed(g) && k < |route|
    ensures WellFormed(r) && NodeSet(r) == NodeSet(g)
    decreases k
  {
    if k == 0 then g
    else
      var t := Pruned(g, route, k - 1);
      if HasEdge(t, route[k - 1], route[k]) then RemoveEdge(t, route[k - 1], route[k]) else t
  }

  /** The first `k` pairs of the route are the first `k - 1` and pair `k - 1`. */
  lemma OnRouteStep(route: seq<Node>, k: nat, a: Node, b: Node)
    requires 0 < k < |route|
    ensures OnRoute(route, k, a, b) <==>
              || OnRoute(route, k - 1, a, b)
              || (route[k - 1] == a && route[k] == b) || (route[k - 1] == b && route[k] == a)
  {
    var u, v := route[k - 1], route[k];
    if (u == a && v == b) || (u == b && v == a) {
      assert 0 <= k - 1 < k && k - 1 + 1 < |route|;
    }
    if OnRoute(route, k, a, b) {
      var i :| 0 <= i < k && i + 1 < |route| &&
        ((route[i] == a && route[i + 1] == b) || (route[i] == b && route[i + 1] == a));
      if i < k - 1 {
        assert OnRoute(route, k - 1, a, b);
      }
    }
  }

  /** The edges removed are exactly those joining consecutive route nodes. */
  lemma {:induction false} PrunedEdges(g: Graph, route: seq<Node>, k: nat, a: Node, b: Node)
    requires WellFormed(g) && k < |route|
    ensures HasEdge(Pruned(g, route, k), a, b) <==> HasEdge(g, a, b) && !OnRoute(route, k, a, b)
    decreases k
  {
    if k > 0 {
      PrunedEdges(g, route, k - 1, a, b);
      OnRouteStep(route, k, a, b);
      PrunedStep(g, route, k, a, b);
    }
  }

  /** Handling pair `k - 1` removes exactly the edge joining that pair. */
  lemma PrunedStep(g: Graph, route: seq<Node>, k: nat, a: Node, b: Node)
    requires WellFormed(g) && 0 < k < |route|
    ensures HasEdge(Pruned(g, route, k), a, b) <==>
              && HasEdge(Pruned(g, route, k - 1), a, b)
              && !(route[k - 1] == a && route[k] == b) && !(route[k - 1] == b && route[k] == a)
  {
  }

  /** `sum(g.degree(node) for node in route)`. */
  function TotalDegree(g: Graph, route: seq<Node>): nat
  {
    if route == [] then 0 else TotalDegree(g, route[..|route| - 1]) + Degree(g, Last(route))
  }

  /** `_get_number_of_paths_for_node`: the max-flow value, or 0 when networkx raises. */
  function NumberOfPaths(lib: Library, g: Graph, source: Node, dest: Node): nat
  {
    match lib.maximumFlowValue(g, source, dest)
    case None => 0
    case Some(n) => n
  }

  /** The number of alternate paths summed over `nodes`. */
  function SumPaths(lib: Library, g: Graph, nodes: seq<Node>, dest: Node): nat
  {
    if nodes == [] then 0
    else SumPaths(lib, g, nodes[..|nodes| - 1], dest) + NumberOfPaths(lib, g, Last(nodes), dest)
  }

  /** The removal loop of lines 81-85 (and 119-122). */
  method RemoveRouteEdges(g: Graph, route: seq<Node>) returns (t: Graph)
    requires WellFormed(g) && route != []
    ensures t == Pruned(g, route, |route| - 1)
  {
    t := g;
    var i := 0;
    while i < |route| - 1
      invariant 0 <= i <= |route| - 1
      invariant t == Pruned(g, route, i)
    {
      var u, v := route[i], route[i + 1];
      if HasEdge(t, u, v) {
        t := RemoveEdge(t, u, v);
      }
      i := i + 1;
    }
  }

  /** The accumulation loop of lines 92-94 (and 128-130). */
  method AlternateTotal(lib: Library, g: Graph, nodes: seq<Node>, dest: Node) returns (total: nat)
    ensures total == SumPaths(lib, g, nodes, dest)
  {
    total := 0;
    for i := 0 to |nodes|
      invariant total == SumPaths(lib, g, nodes[..i], dest)
    {
      assert nodes[..i + 1][..i] == nodes[..i];
      total := total + NumberOfPaths(lib, g, nodes[i], dest);
    }
    assert nodes[..|nodes|] == nodes;
  }

  class RoutingMetrics {
    var logs: seq<LogEntry>
    var backtrackCounter: nat
    /** Whether each entry is also printed; printing is not modelled. */
    const debugPrint: bool

    constructor (debugPrint: bool)
      ensures logs == [] && backtrackCounter == 0 && this.debugPrint == debugPrint
    {
      logs := [];
      backtrackCounter := 0;
      this.debugPrint := debugPrint;
    }

    method LogForwarding(router: Node, nextHop: Node)
      modifies this
      ensures logs == old(logs) + [Forwarding(router, nextHop)]
      ensures backtrackCounter == old(backtrackCounter)
    {
      logs := logs + [Forwarding(router, nextHop)];
    }

    method LogFailure(router: Node, failedNextHop: Node)
      modifies this
      ensures logs == old(logs) + [Failure(router, failedNextHop)]
      ensures backtrackCounter == old(backtrackCounter)
    {
      logs := logs + [Failure(router, failedNextHop)];
    }

    /** Always counts the backtrack; logs it only when there is a previous
        router (`None` stands for the engines' `""`). */
    method LogBacktrack(router: Node, previousRouter: Option<Node>)
      modifies this
      ensures backtrackCounter == old(backtrackCounter) + 1
      ensures logs == if previousRouter.Some? then old(logs) + [Backtrack(router, previousRouter.value)] else old(logs)
    {
      backtrackCounter := backtrackCounter + 1;
      if previousRouter.Some? {
        logs := logs + [Backtrack(router, previousRouter.value)];
      }
    }

    method LogSuccess(finalRoute: seq<Node>)
      modifies this
      ensures logs == old(logs) + [Success(finalRoute)]
      ensures backtrackCounter == old(backtrackCounter)
    {
      logs := logs + [Success(finalRoute)];
    }

    /** The route length, the alternate-route average over the interior
        nodes on the topology without the route's own edges, and the
        backtrack count; `None` when the route does not end at the destination. */
    method ComputeFinalMetrics(packet: Packet, g: Graph, lib: Library) returns (r: Option<Report>)
      requires WellFormed(g)
      ensures r.None? <==> !RouteComplete(packet.path, packet.destination)
      ensures r.Some? ==> r.value.routeLength == |packet.path| - 1
      ensures r.Some? ==> r.value.totalDegree == TotalDegree(g, packet.path)
      ensures r.Some? ==> r.value.backtracks == backtrackCounter
      ensures r.Some? ==> r.value.interiorCount == |Interior(packet.path)|
      ensures r.Some? ==> (r.value.alternateTotal
                 == SumPaths(lib, Pruned(g, packet.path, |packet.path| - 1), Interior(packet.path), packet.destination))
      ensures r.Some? ==> (r.value.averageAlternateRoutes.None? <==> |packet.path| <= 2)
      ensures r.Some? && r.value.averageAlternateRoutes.Some? ==>
                r.value.averageAlternateRoutes.value == r.value.alternateTotal as real / r.value.interiorCount as real
    {
      var route := packet.path;
      if route == [] || route[|route| - 1] != packet.destination {
        return None;
      }
      var routeLength := |route| - 1;
      var totalDegree := TotalDegree(g, route);
      var dest := route[|route| - 1];
      var t := RemoveRouteEdges(g, route);
      var nodesToCheck := Interior(route);
      var total := AlternateTotal(lib, t, nodesToCheck, dest);
      var average: Option<real> := None;
      if nodesToCheck != [] {
        average := Some(total as real / |nodesToCheck| as real);
      }
      return Some(Report(routeLength, totalDegree, total, |nodesToCheck|, average, backtrackCounter));
    }

    /** The CSV row for the route (the file append is not modelled); the
        average is 0 when the route has no interior node. */
    method SaveMetricsToCsv(experimentName: string, algorithm: string, packet: Packet, g: Graph, lib: Library)
      returns (row: Option<CsvRow>)
      requires WellFormed(g)
      ensures row.None? <==> !RouteComplete(packet.path, packet.destination)
      ensures row.Some? ==> row.value.experimentName == experimentName && row.value.algorithm == algorithm
      ensures row.Some? ==> row.value.routeLength == |packet.path| - 1
      ensures row.Some? ==> row.value.totalDegree == TotalDegree(g, packet.path)
      ensures row.Some? ==> row.value.backtracks == backtrackCounter
      ensures row.Some? && |packet.path| <= 2 ==> row.value.averageAlternateRoutes == 0.0
      ensures row.Some? && |packet.path| > 2 ==>
                row.value.averageAlternateRoutes
                == SumPaths(lib, Pruned(g, packet.path, |packet.path| - 1), Interior(packet.path), packet.destination) as real
                   / (|packet.path| - 2) as real
    {
      var route := packet.path;
      if route == [] || route[|route| - 1] != packet.destination {
        return None;
      }
      var routeLength := |route| - 1;
      var totalDegree := TotalDegree(g, route);
      var dest := route[|route| - 1];
      var t := RemoveRouteEdges(g, route);
      var nodesToCheck := Interior(route);
      var average := 0.0;
      if nodesToCheck != [] {
        assert |route| > 2 && |nodesToCheck| == |route| - 2;
        var total := AlternateTotal(lib, t, nodesToCheck, dest);
        average := total as real / |nodesToCheck| as real;
      }
      return Some(CsvRow(experimentName, algorithm, routeLength, totalDegree, average, backtrackCounter));
    }
  }
}
