/** routing_algorithms/utils.py: the distance and flow queries the policies
    make. The networkx algorithms behind them are not modelled; they are
    values of `Library`, supplied by the caller. What utils.py adds on top of
    networkx (its sentinel branches) is modelled exactly. */
module Oracle {
  import opened Common
  import opened Topology

  /** The networkx algorithms the simulator calls. */
  datatype Library = Library(
    /** `nx.shortest_path_length(g, s, d, weight="weight")`; `None` when it raises `NetworkXNoPath`. */
    shortestPathLength: (Graph, Node, Node) -> Option<nat>,
    /** `nx.maximum_flow_value(g, s, d, capacity="capacity")`; `None` when it raises. */
    maximumFlowValue: (Graph, Node, Node) -> Option<nat>,
    /** `list(nx.edge_disjoint_paths(g, s, d))`; `None` when it raises `NetworkXNoPath`. */
    edgeDisjointPaths: (Graph, Node, Node) -> Option<seq<seq<Node>>>,
    /** `nx.edge_connectivity(g)`. */
    edgeConnectivity: Graph -> nat)

  /** `get_shortest_path_length`: 0 from a node to itself, infinity when there is no path. */
  function GetShortestPathLength(lib: Library, source: Node, dest: Node, g: Graph): (r: ENat)
    ensures source == dest ==> r == Fin(0)
    ensures source != dest ==> (r.Inf? <==> lib.shortestPathLength(g, source, dest).None?)
    ensures source != dest && r.Fin? ==> Some(r.n) == lib.shortestPathLength(g, source, dest)
  {
    if source == dest then Fin(0)
    else match lib.shortestPathLength(g, source, dest)
      case None => Inf
      case Some(n) => Fin(n)
  }

  /** `get_max_flow_value`: infinity from a node to itself, 0 when networkx raises. */
  function GetMaxFlowValue(lib: Library, source: Node, dest: Node, g: Graph): (r: ENat)
    ensures source == dest <==> r.Inf?
    ensures source != dest && lib.maximumFlowValue(g, source, dest).None? ==> r == Fin(0)
    ensures source != dest && lib.maximumFlowValue(g, source, dest).Some? ==> r == Fin(lib.maximumFlowValue(g, source, dest).value)
  {
    if source == dest then Inf
    else match lib.maximumFlowValue(g, source, dest)
      case None => Fin(0)
      case Some(n) => Fin(n)
  }
}
