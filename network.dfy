/** network.py: the registry of routers by name, the topology they sit on,
    and the per-destination table of next hops along edge-disjoint paths. */
module Networks {
  import opened Common
  import opened Topology
  import opened Oracle
  import opened RoutingAlgorithm
  import opened Routers

  /** `paths[:c]` for a non-negative `c`. */
  function Take(paths: seq<seq<Node>>, c: nat): (r: seq<seq<Node>>)
    ensures |r| <= c && |r| <= |paths|
    ensures |r| == c || r == paths
    ensures forall i :: 0 <= i < |r| ==> r[i] == paths[i]
  {
    if c <= |paths| then paths[..c] else paths
  }

  /** The second node of every path that has one, in path order. */
  function SecondNodes(paths: seq<seq<Node>>): (r: seq<Node>)
    ensures |r| <= |paths|
    ensures forall x :: x in r <==> exists p :: p in paths && |p| > 1 && p[1] == x
  {
    if paths == [] then []
    else
      var rest := SecondNodes(paths[..|paths| - 1]);
      assert forall p :: p in paths <==> p in paths[..|paths| - 1] || p == Last(paths) by {
        assert paths == paths[..|paths| - 1] + [Last(paths)];
      }
      if |Last(paths)| > 1 then rest + [Last(paths)[1]] else rest
  }

  /** The next hops stored for source `s` towards `d`: the second nodes of
      the first `c` edge-disjoint paths, or none when there is no path. */
  function SourceEntry(lib: Library, g: Graph, c: nat, s: Node, d: Node): seq<Node>
  {
    match lib.edgeDisjointPaths(g, s, d)
    case None => []
    case Some(paths) => SecondNodes(Take(paths, c))
  }

  /** At most `c` next hops are stored, none without paths, and with paths
      exactly the second nodes of the first `c` of them. */
  lemma SourceEntryHops(lib: Library, g: Graph, c: nat, s: Node, d: Node)
    ensures |SourceEntry(lib, g, c, s, d)| <= c
    ensures lib.edgeDisjointPaths(g, s, d).None? ==> SourceEntry(lib, g, c, s, d) == []
    ensures lib.edgeDisjointPaths(g, s, d).Some? ==>
              forall x :: x in SourceEntry(lib, g, c, s, d) <==>
                exists p :: p in Take(lib.edgeDisjointPaths(g, s, d).value, c) && |p| > 1 && p[1] == x
  {
    match lib.edgeDisjointPaths(g, s, d)
    case None =>
    case Some(paths) =>
      assert SourceEntry(lib, g, c, s, d) == SecondNodes(Take(paths, c));
  }

  /** The inner `for path in disjoint_paths` loop (lines 69-71). */
  method ExtractNextHops(paths: seq<seq<Node>>) returns (nextHops: seq<Node>)
    ensures nextHops == SecondNodes(paths)
  {
    nextHops := [];
    for i := 0 to |paths|
      invariant nextHops == SecondNodes(paths[..i])
    {
      assert paths[..i + 1][..i] == paths[..i];
      if |paths[i]| > 1 {
        nextHops := nextHops + [paths[i][1]];
      }
    }
    assert paths[..|paths|] == paths;
  }

  /** The attributes `from_networkx_graph` copies, 1 where one is missing. */
  function EdgeAttributes(a: Attributes): EdgeData
  {
    EdgeData(
      if a.weight.Some? then a.weight.value else 1,
      if a.capacity.Some? then a.capacity.value else 1)
  }

  /** `{a, b}` is one of the listed input edges. */
  predicate Listed(edges: seq<(Node, Node, Attributes)>, a: Node, b: Node)
  {
    exists i :: 0 <= i < |edges| && ((edges[i].0 == a && edges[i].1 == b) || (edges[i].0 == b && edges[i].1 == a))
  }

  lemma ListedAppend(edges: seq<(Node, Node, Attributes)>, i: nat, a: Node, b: Node)
    requires i < |edges|
    ensures Listed(edges[..i + 1], a, b) <==>
              Listed(edges[..i], a, b) || (edges[i].0 == a && edges[i].1 == b) || (edges[i].0 == b && edges[i].1 == a)
  {
    if Listed(edges[..i + 1], a, b) {
      var k :| 0 <= k < i + 1 && ((edges[..i + 1][k].0 == a && edges[..i + 1][k].1 == b) ||
                                  (edges[..i + 1][k].0 == b && edges[..i + 1][k].1 == a));
      if k < i {
        assert edges[..i][k] == edges[k];
      }
    }
    if Listed(edges[..i], a, b) {
      var k :| 0 <= k < i && ((edges[..i][k].0 == a && edges[..i][k].1 == b) || (edges[..i][k].0 == b && edges[..i][k].1 == a));
      assert edges[..i + 1][k] == edges[k];
    }
    assert edges[..i + 1][i] == edges[i];
  }

  class Network {
    var routers: map<Node, Router>
    var topology: Graph
    /** `None` until `pre_calculate_arborescences` has set the attribute. */
    var arborescencePacking: Option<map<Node, map<Node, seq<Node>>>>

    /** Every router is a topology node and is registered under its own name. */
    ghost predicate Valid()
      reads this
    {
      && WellFormed(topology)
      && routers.Keys <= NodeSet(topology)
      && forall k :: k in routers ==> routers[k].name == k
    }

    constructor ()
      ensures routers == map[] && topology == EmptyGraph && arborescencePacking == None
      ensures Valid()
    {
      routers := map[];
      topology := EmptyGraph;
      arborescencePacking := None;
    }

    /** `add_router`: a new name gets a new router and a topology node; an
        existing name keeps its router, whose policy is replaced only by a
        given one. The router under the name is returned. */
    method AddRouter(name: Node, algorithm: Option<PairPolicy> := None) returns (router: Router)
      requires Valid()
      modifies this, routers.Values
      ensures Valid()
      ensures name in routers && router == routers[name]
      ensures name !in old(routers) ==>
                && fresh(router) && router.routingAlgorithm == algorithm
                && routers == old(routers)[name := router]
                && topology == AddNode(old(topology), name)
      ensures name in old(routers) ==>
                && router == old(routers[name])
                && routers == old(routers) && topology == old(topology)
                && router.routingAlgorithm == if algorithm.Some? then algorithm else old(routers[name].routingAlgorithm)
      ensures forall k :: k in old(routers) && k != name ==> routers[k].routingAlgorithm == old(routers[k].routingAlgorithm)
      ensures forall k :: k in old(routers) ==> routers[k].routingTable == old(routers[k].routingTable)
      ensures arborescencePacking == old(arborescencePacking)
    {
      if name !in routers {
        var newRouter := new Router(name, algorithm);
        routers := routers[name := newRouter];
        topology := AddNode(topology, name);
      } else if algorithm.Some? {
        routers[name].routingAlgorithm := algorithm;
      }
      router := routers[name];
    }

    /** `add_link`: an edge with the given (default 1) weight and capacity;
        no router is registered, so an endpoint may have none. */
    method AddLink(a: Node, b: Node, weight: int := 1, capacity: int := 1)
      requires Valid()
      modifies this
      ensures Valid()
      ensures topology == AddEdge(old(topology), a, b, EdgeData(weight, capacity))
      ensures routers == old(routers) && arborescencePacking == old(arborescencePacking)
    {
      topology := AddEdge(topology, a, b, EdgeData(weight, capacity));
    }

    /** `from_networkx_graph`: every input node becomes a router with the
        same policy, every input edge a link with its attributes, and the
        next-hop table is computed. */
    static method FromNetworkxGraph(h: InputGraph, algorithm: Option<PairPolicy>, lib: Library) returns (net: Network)
      requires InputWellFormed(h)
      ensures fresh(net) && net.Valid()
      ensures net.routers.Keys == Elements(h.nodes)
      ensures forall k :: k in net.routers ==> fresh(net.routers[k]) && net.routers[k].routingAlgorithm == algorithm
      ensures net.topology.nodes == h.nodes
      ensures forall a, b :: HasEdge(net.topology, a, b) <==> Listed(h.edges, a, b)
      ensures forall i :: 0 <= i < |h.edges| ==>
                (h.edges[i].0, h.edges[i].1) in net.topology.data &&
                net.topology.data[(h.edges[i].0, h.edges[i].1)] == EdgeAttributes(h.edges[i].2)
      ensures net.arborescencePacking.Some? && PackingOf(lib, net.topology, net.arborescencePacking.value)
    {
      net := new Network();
      RegisterRouters(net, h.nodes, algorithm);
      LinkEdges(net, h);
      net.PreCalculateArborescences(lib);
    }

    /** `pre_calculate_arborescences`: for every destination `d` and every
        other node `s`, the next hops of up to edge-connectivity many
        edge-disjoint `s`-`d` paths. */
    method PreCalculateArborescences(lib: Library)
      requires Valid()
      modifies this
      ensures Valid()
      ensures routers == old(routers) && topology == old(topology)
      ensures arborescencePacking.Some? && PackingOf(lib, topology, arborescencePacking.value)
    {
      var packing := NextHopTable(lib, topology);
      arborescencePacking := Some(packing);
    }
  }

  /** The `for router_name in graph.nodes` loop of `from_networkx_graph`. */
  method RegisterRouters(net: Network, nodes: seq<Node>, algorithm: Option<PairPolicy>)
    requires net.Valid() && net.routers == map[] && net.topology == EmptyGraph && Distinct(nodes)
    modifies net
    ensures net.Valid()
    ensures net.routers.Keys == Elements(nodes)
    ensures forall k :: k in net.routers ==> fresh(net.routers[k]) && net.routers[k].routingAlgorithm == algorithm
    ensures net.topology.nodes == nodes && net.topology.data == map[]
    ensures forall a, b :: !HasEdge(net.topology, a, b)
    ensures net.arborescencePacking == old(net.arborescencePacking)
  {
    for i := 0 to |nodes|
      invariant net.Valid()
      invariant net.routers.Keys == Elements(nodes[..i])
      invariant forall k :: k in net.routers ==> fresh(net.routers[k]) && net.routers[k].routingAlgorithm == algorithm
      invariant forall r :: r in net.routers.Values ==> fresh(r)
      invariant net.topology.nodes == nodes[..i] && net.topology.data == map[]
      invariant forall a, b :: !HasEdge(net.topology, a, b)
      invariant net.arborescencePacking == old(net.arborescencePacking)
    {
      assert nodes[..i + 1] == nodes[..i] + [nodes[i]];
      assert nodes[i] !in nodes[..i];
      var router := net.AddRouter(nodes[i], algorithm);
    }
    assert nodes[..|nodes|] == nodes;
  }

  /** The topology holds the nodes of `h` and exactly its first `i` edges, with their attributes. */
  ghost predicate EdgesLoaded(g: Graph, h: InputGraph, i: nat)
    requires i <= |h.edges|
  {
    && g.nodes == h.nodes && NodeSet(g) == Elements(h.nodes)
    && (forall a, b :: HasEdge(g, a, b) <==> Listed(h.edges[..i], a, b))
    && forall k :: 0 <= k < i ==>
         (h.edges[k].0, h.edges[k].1) in g.data && g.data[(h.edges[k].0, h.edges[k].1)] == EdgeAttributes(h.edges[k].2)
  }

  lemma LoadStep(g: Graph, h: InputGraph, i: nat)
    requires InputWellFormed(h) && WellFormed(g) && i < |h.edges| && EdgesLoaded(g, h, i)
    ensures EdgesLoaded(AddEdge(g, h.edges[i].0, h.edges[i].1, EdgeAttributes(h.edges[i].2)), h, i + 1)
  {
    var (u, v, data) := h.edges[i];
    var r := AddEdge(g, u, v, EdgeAttributes(data));
    assert u in g.adj && v in g.adj;
    forall a, b ensures HasEdge(r, a, b) <==> Listed(h.edges[..i + 1], a, b) {
      ListedAppend(h.edges, i, a, b);
    }
    forall k | 0 <= k < i + 1
      ensures (h.edges[k].0, h.edges[k].1) in r.data && r.data[(h.edges[k].0, h.edges[k].1)] == EdgeAttributes(h.edges[k].2)
    {
      if k < i {
        assert (h.edges[k].0, h.edges[k].1) != (u, v) && (h.edges[k].0, h.edges[k].1) != (v, u);
      }
    }
  }

  /** The `for u, v, data in graph.edges(data=True)` loop of `from_networkx_graph`. */
  method LinkEdges(net: Network, h: InputGraph)
    requires InputWellFormed(h) && net.Valid()
    requires net.topology.nodes == h.nodes && forall a, b :: !HasEdge(net.topology, a, b)
    modifies net
    ensures net.Valid()
    ensures net.routers == old(net.routers) && net.arborescencePacking == old(net.arborescencePacking)
    ensures net.topology.nodes == h.nodes
    ensures forall a, b :: HasEdge(net.topology, a, b) <==> Listed(h.edges, a, b)
    ensures forall i :: 0 <= i < |h.edges| ==>
              (h.edges[i].0, h.edges[i].1) in net.topology.data &&
              net.topology.data[(h.edges[i].0, h.edges[i].1)] == EdgeAttributes(h.edges[i].2)
  {
    NodesListed(net.topology);
    for i := 0 to |h.edges|
      invariant net.Valid()
      invariant net.routers == old(net.routers) && net.arborescencePacking == old(net.arborescencePacking)
      invariant EdgesLoaded(net.topology, h, i)
    {
      var (u, v, data) := h.edges[i];
      LoadStep(net.topology, h, i);
      net.AddLink(u, v, EdgeAttributes(data).weight, EdgeAttributes(data).capacity);
    }
    assert h.edges[..|h.edges|] == h.edges;
  }

  /** The body of the innermost `for source` loop: no paths give no next
      hops, otherwise the second nodes of the first `c` paths. */
  method SourceNextHops(lib: Library, topology: Graph, c: nat, s: Node, d: Node) returns (nextHops: seq<Node>)
    ensures nextHops == SourceEntry(lib, topology, c, s, d)
  {
    match lib.edgeDisjointPaths(topology, s, d) {
      case None =>
        nextHops := [];
      case Some(paths) =>
        nextHops := ExtractNextHops(Take(paths, c));
    }
  }

  /** The inner loop of `pre_calculate_arborescences`: the next hops of
      every other node towards `d`, from the first `c` edge-disjoint paths. */
  method DestinationTable(lib: Library, topology: Graph, nodes: seq<Node>, c: nat, d: Node) returns (table: map<Node, seq<Node>>)
    ensures table.Keys == Elements(nodes) - {d}
    ensures forall s :: s in table ==> table[s] == SourceEntry(lib, topology, c, s, d)
  {
    table := map[];
    for k := 0 to |nodes|
      invariant table.Keys == Elements(nodes[..k]) - {d}
      invariant forall s :: s in table ==> table[s] == SourceEntry(lib, topology, c, s, d)
    {
      var s := nodes[k];
      assert nodes[..k + 1] == nodes[..k] + [s];
      ElementsAppend(nodes[..k], s);
      if s == d {
        continue;
      }
      var nextHops := SourceNextHops(lib, topology, c, s, d);
      table := table[s := nextHops];
    }
    assert nodes[..|nodes|] == nodes;
  }

  /** The nested loops of `pre_calculate_arborescences` (lines 47-79). */
  method NextHopTable(lib: Library, topology: Graph) returns (packing: map<Node, map<Node, seq<Node>>>)
    requires WellFormed(topology)
    ensures PackingOf(lib, topology, packing)
  {
    var c := lib.edgeConnectivity(topology);
    var nodes := topology.nodes;
    NodesListed(topology);
    packing := map[];
    for i := 0 to |nodes|
      invariant packing.Keys == Elements(nodes[..i])
      invariant forall d :: d in packing ==> packing[d].Keys == NodeSet(topology) - {d}
      invariant forall d, s :: d in packing && s in packing[d] ==> packing[d][s] == SourceEntry(lib, topology, c, s, d)
    {
      var d := nodes[i];
      var table := DestinationTable(lib, topology, nodes, c, d);
      assert nodes[..i + 1] == nodes[..i] + [d];
      packing := packing[d := table];
    }
    assert nodes[..|nodes|] == nodes;
  }

  /** `table` is the next-hop table of `g`: an entry for every destination,
      holding every other node with its next hops, and no `s == d` entry. */
  ghost predicate PackingOf(lib: Library, g: Graph, table: map<Node, map<Node, seq<Node>>>)
  {
    && table.Keys == NodeSet(g)
    && (forall d :: d in table ==> table[d].Keys == NodeSet(g) - {d})
    && forall d, s :: d in table && s in table[d] ==> table[d][s] == SourceEntry(lib, g, lib.edgeConnectivity(g), s, d)
  }

  /** Calling `add_router` twice under one name returns the same router and
      changes nothing the first call did not: the router holds the policy a
      single call gives it, and every other router keeps its own. */
  method AddRouterTwice(net: Network, name: Node, algorithm: Option<PairPolicy>) returns (first: Router, second: Router)
    requires net.Valid()
    modifies net, net.routers.Values
    ensures first == second && name in net.routers && net.routers[name] == first
    ensures net.routers == old(net.routers)[name := first]
    ensures net.topology == AddNode(old(net.topology), name)
    ensures first.routingAlgorithm ==
              if name in old(net.routers) && algorithm.None? then old(net.routers[name].routingAlgorithm) else algorithm
    ensures forall k :: k in old(net.routers) && k != name ==> net.routers[k].routingAlgorithm == old(net.routers[k].routingAlgorithm)
    ensures forall k :: k in old(net.routers) ==> net.routers[k].routingTable == old(net.routers[k].routingTable)
    ensures net.arborescencePacking == old(net.arborescencePacking)
  {
    first := net.AddRouter(name, algorithm);
    second := net.AddRouter(name, algorithm);
  }
}
