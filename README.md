# Routing simulator — a verified model

This project models the core of `routing_sim`, a Python simulator of packet
forwarding over an undirected network topology held as a networkx graph.
Routers are topology nodes. Each router asks a routing policy for its next
hop towards a destination. A forwarding engine walks a packet through the
network until the packet reaches its destination or the search gives up.
Link failures are recorded in a set that every engine shares. Route metrics
are computed once a packet has arrived.

The model has one Dafny module per source file:

- `Common`: nodes, edges, `Option` and the few pieces of Python arithmetic
  the policies rely on. `Score` stands for a Python float: a real number,
  `±inf` or `nan`. `Times` and `Plus` follow float semantics, so
  `inf * 0` is `nan`.
- `Topology`: the networkx `Graph` as a value. It holds the node list in
  insertion order, the adjacency lists and the edge attributes. The module
  defines the graph operations the simulator uses: `add_node`, `add_edge`,
  `remove_node`, `remove_edge` and `degree`.
- `Oracle`: `utils.py`. The networkx algorithms it calls (shortest path
  length, maximum flow value, edge-disjoint paths, edge connectivity) are
  parameters of type `Library`. The sentinel values that `utils.py` adds on
  top of them are modelled exactly.
- `Sorting`: Python's `list.sort(key=..., reverse=...)` on scored
  neighbours, written as a stable insertion sort. It is proved to be a
  permutation, to be sorted, and to be stable.
- `RoutingAlgorithm`: the policy interface. It defines which neighbours may
  be forwarded to (a neighbour of the router, not the router itself, not yet
  visited) and how neighbours are ranked by a score.
- `DijkstraRouting`, `MaxFlowRouting`, `ProbabilisticMaxFlowRouting`,
  `Arborescences`: the four policies.
- `Packets`, `Routers`, `Networks`: the classes `Packet`, `Router` and
  `Network`. Their fields are updated in place by methods with `modifies`
  clauses.
- `Metrics`: `RoutingMetrics`, which holds the event log, the backtrack
  counter and the route metrics.
- `EngineInterface`: what the three engines share.
- `Simulation`, `FrrSimulation`, `ArborescenceSimulation`: the three
  engines.

The recursive forwarding search of each engine is a pair of mutually
recursive methods. Termination is proved:

- The base engine and the fast-reroute engine shrink the set of routers not
  yet visited.
- The arborescence engine shrinks the set of (router, arborescence index)
  pairs not yet met.

A search that loops for ever inside one router's `while` loop is reported as
a distinct outcome, `Unbounded`. An exception is reported as `Raised`. So is
a search that recurses without end, because Python stops it with
`RecursionError`.

Some source behaviour is modelled as written:

- `routing_sim/simulation_engine.py` sits next to a directory of the same
  name, `routing_sim/simulation_engine/`. Which one `import` reaches depends
  on whether the directory holds an `__init__.py`, which is not part of
  this model. With one, the package shadows the module. Without one, the
  module shadows the directory, and the imports on line 5 of the two
  engines inside it fail. Both sides are modelled as if reachable: the
  module as `Simulation`, the directory's engines as `FrrSimulation` and
  `ArborescenceSimulation`.
- In the base engine, a next hop that is a topology node without a router
  fails without growing the visited set. The policy then gives the same
  answer again, so the loop never ends. The model returns `Unbounded` there.
- The arborescence engine never pops its path. A failed walk is handed back
  as it stands, so it is not empty.
- When the tree builder (lines 64-80 of `arborescence_routing.py`) finds no
  acceptable candidate edge, the `while` loop spins for ever on an empty
  candidate set. The model reports this as `Stagnated` / `PackingStagnated`.
- A successful `while` loop always yields a spanning arborescence. The model
  proves this, so the `is_arborescence` exception on lines 82-83 can never
  be raised.
- `compute_final_metrics` only prints. Its printed figures are returned as
  a `Report`.

Three places where the source as written cannot run are modelled by their
evident intent (see "## Left out"):

- the `routing_algorithm=` keyword passed to `Router.get_next_hop`;
- `next_hop_candidates += 1` where the index is meant;
- `[0]` applied to a successors iterator.

## Model

| member | source | states |
|---|---|---|
| Packets.Packet.constructor | routing_sim/packet.py:6-10 | a packet starts with an empty path and an empty visited set, and keeps its origin and destination |
| Packets.Packet.RecordHop | routing_sim/packet.py:12-15 | the router is appended to the path and added to the visited set; every path node stays visited |
| Packets.Packet.RecordBacktrackingHop | routing_sim/packet.py:17-19 | the last path node is popped and the visited set is kept, so a backtracked router stays visited |
| Packets.HopThenBacktrack | routing_sim/packet.py:12-19 | a hop followed by a backtrack restores the path and leaves the router visited |
| Routers.Router.constructor | routing_sim/router.py:9-12 | a router keeps its name and policy, and starts with an empty routing table |
| Routers.Router.GetNextHop | routing_sim/router.py:14-22 | without a policy the call raises; otherwise the answer is the policy's hop from this router towards the packet's destination avoiding the visited set, and a sound policy's hop is a forwardable neighbour |
| Networks.Network.constructor | routing_sim/network.py:10-12 | a network starts with no routers, an empty topology and no next-hop table |
| Networks.Network.AddRouter | routing_sim/network.py:14-22 | a new name gets a fresh router with the given policy and a topology node; an existing name keeps its router, whose policy changes only when one is given; no other router's policy changes and no router's routing table changes |
| Networks.AddRouterTwice | routing_sim/network.py:14-22 | adding a router twice under one name yields the same router and the same network as adding it once: the router holds the policy one call gives it (the given one, or its old one when none is given), every other router keeps its policy, every routing table is kept, and the topology gains the node only if it is new |
| Networks.Network.AddLink | routing_sim/network.py:24-26 | the topology gains the undirected edge with its weight and capacity (its end nodes too); the routers are unchanged |
| Networks.RegisterRouters | routing_sim/network.py:33-35 | after the router loop every node of the input graph is a router with the given policy, and the topology holds exactly those nodes, in order, with no edge |
| Networks.LoadStep | routing_sim/network.py:37-40 | adding the next input edge extends the loaded prefix: the topology's edges are exactly those listed so far |
| Networks.LinkEdges | routing_sim/network.py:37-40 | after the edge loop the topology's edges are exactly the input graph's edges, each carrying its input attributes or the default weight and capacity of 1 |
| Networks.Network.FromNetworkxGraph | routing_sim/network.py:28-43 | the network built from a graph has a router per node with the given policy, exactly the graph's edges, and a next-hop table that was computed by `pre_calculate_arborescences` |
| Networks.Take | routing_sim/network.py:65 | `paths[:c]` holds the first `min(c, len(paths))` paths, in order |
| Networks.SecondNodes | routing_sim/network.py:68-71 | the extracted next hops are exactly the second nodes of the paths with more than one node, and there are no more of them than paths |
| Networks.ExtractNextHops | routing_sim/network.py:68-71 | the extraction loop computes exactly the second nodes of the paths |
| Networks.SourceEntryHops | routing_sim/network.py:62-77 | a source's entry holds at most `c` hops; it is empty when no path exists; otherwise its hops are exactly the second nodes of the first `c` edge-disjoint paths |
| Networks.SourceNextHops | routing_sim/network.py:62-77 | the body of the inner loop computes the source's entry |
| Networks.DestinationTable | routing_sim/network.py:53-77 | the table of one destination has an entry for every other node and none for the destination; each entry is that source's next hops |
| Networks.NextHopTable | routing_sim/network.py:45-81 | the table has an entry for every destination, each holding every other node with its next hops under the edge connectivity |
| Networks.Network.PreCalculateArborescences | routing_sim/network.py:45-81 | the network's next-hop table is set to the table of its topology; routers and topology are unchanged |
| Oracle.GetShortestPathLength | routing_sim/routing_algorithms/utils.py:7-14 | the distance from a node to itself is 0; otherwise it is infinite exactly when networkx finds no path, and is networkx's length when it finds one |
| Oracle.GetMaxFlowValue | routing_sim/routing_algorithms/utils.py:16-23 | the flow from a node to itself is infinite (and only then); otherwise it is networkx's value, or 0 when networkx raises |
| Common.Times | routing_sim/routing_algorithms/max_flow_routing.py:39 | scaling a finite score scales its value; scaling `nan`, or scaling an infinity by 0, gives `nan` |
| Common.Plus | routing_sim/routing_algorithms/max_flow_routing.py:39 | the sum of finite scores is the real sum; a `nan` operand gives `nan` |
| Common.AsScore | routing_sim/routing_algorithms/max_flow_routing.py:39 | an infinite distance or flow becomes `+inf` as a float, and only then |
| Topology.AddNode | routing_sim/network.py:19 | adding a node keeps the graph well formed, appends the node only if it is new, and changes no edge or attribute |
| Topology.AddEdge | routing_sim/network.py:26 | adding an edge adds its end nodes and exactly the one undirected edge, with the given attributes in both directions; other attributes are kept |
| Topology.RemoveNode | routing_sim/routing_algorithms/dijkstra_routing.py:24-25 | removing a node from a copy keeps the graph well formed, drops the node and exactly the edges incident to it |
| Topology.RemoveEdge | routing_sim/metrics.py:84-85 | removing an edge keeps every node and drops exactly that undirected edge |
| Topology.DegreeCountsEdges | routing_sim/metrics.py:73 | a node's degree counts its distinct neighbours, with a self-loop counted twice as networkx does |
| Sorting.Insert | routing_sim/routing_algorithms/dijkstra_routing.py:35 | inserting an entry into a list adds exactly that entry to its multiset |
| Sorting.SortPermutes | routing_sim/routing_algorithms/dijkstra_routing.py:35 | sorting permutes the scored entries |
| Sorting.SortSorts | routing_sim/routing_algorithms/probabilistic_max_flow_routing.py:46 | with no `nan` key, the sorted list is ordered by score, ascending or descending as `reverse` says |
| Sorting.SortStable | routing_sim/routing_algorithms/dijkstra_routing.py:35 | the sort is stable: the entries with any one score keep their original relative order |
| Sorting.HopsPermute | routing_sim/routing_algorithms/dijkstra_routing.py:36 | permuting the scored entries permutes the neighbours returned |
| RoutingAlgorithm.KeepEligible | routing_sim/routing_algorithms/dijkstra_routing.py:18 | the filter keeps exactly the listed nodes that are neither the source nor visited, and creates no duplicates |
| RoutingAlgorithm.Eligible | routing_sim/routing_algorithms/dijkstra_routing.py:18 | the candidate neighbours are exactly the forwardable ones, without duplicates in a well-formed graph |
| RoutingAlgorithm.RankMembers | routing_sim/routing_algorithms/dijkstra_routing.py:27-36 | the ranked list holds exactly the candidates that received a score |
| RoutingAlgorithm.RankDistinct | routing_sim/routing_algorithms/dijkstra_routing.py:27-36 | ranking distinct candidates yields no duplicate |
| RoutingAlgorithm.RankSorted | routing_sim/routing_algorithms/dijkstra_routing.py:35-36 | the ranked list is in score order when no score is `nan` |
| RoutingAlgorithm.RankStable | routing_sim/routing_algorithms/dijkstra_routing.py:35-36 | candidates with equal scores keep their neighbour order |
| DijkstraRouting.CalculateNextHop | routing_sim/routing_algorithms/dijkstra_routing.py:13-36 | the loop computes the candidates ranked by distance to the destination in the graph without the source |
| DijkstraRouting.NextHopsMembers | routing_sim/routing_algorithms/dijkstra_routing.py:18-32 | the answer holds, once each, exactly the forwardable neighbours from which the destination is reachable without the source |
| DijkstraRouting.NextHopsSorted | routing_sim/routing_algorithms/dijkstra_routing.py:35 | the answer is in ascending order of distance |
| DijkstraRouting.NextHopsStable | routing_sim/routing_algorithms/dijkstra_routing.py:35 | neighbours at equal distance keep their neighbour order |
| DijkstraRouting.PolicySound | routing_sim/routing_algorithms/dijkstra_routing.py:18 | the policy only answers forwardable neighbours, without duplicates |
| MaxFlowRouting.CalculateNextHop | routing_sim/routing_algorithms/max_flow_routing.py:15-45 | the loop computes the best neighbour and its score |
| MaxFlowRouting.BestWinner | routing_sim/routing_algorithms/max_flow_routing.py:41-45 | a winner is a scored candidate carrying the returned score; no winner means the score stayed `-inf`; the best score is never `nan` |
| MaxFlowRouting.BestMaximal | routing_sim/routing_algorithms/max_flow_routing.py:41-43 | no candidate's score is greater than the best score |
| MaxFlowRouting.BestFirst | routing_sim/routing_algorithms/max_flow_routing.py:41-43 | the strict `>` makes the winner the first candidate with the best score: every earlier candidate scores strictly less |
| MaxFlowRouting.ChoiceNone | routing_sim/routing_algorithms/max_flow_routing.py:21-45 | there is no next hop exactly when no forwardable neighbour scores above `-inf`, and then the score is `-inf` |
| MaxFlowRouting.ChoiceBest | routing_sim/routing_algorithms/max_flow_routing.py:21-45 | the choice is a forwardable neighbour with a path to the destination that carries the returned score, and no forwardable neighbour scores higher |
| MaxFlowRouting.ChoiceFirst | routing_sim/routing_algorithms/max_flow_routing.py:29-43 | every forwardable neighbour listed before the choice scores strictly less |
| MaxFlowRouting.PolicySound | routing_sim/routing_algorithms/max_flow_routing.py:21 | the policy only answers forwardable neighbours |
| ProbabilisticMaxFlowRouting.ExpectedMinimumBacktrackCost | routing_sim/routing_algorithms/probabilistic_max_flow_routing.py:16-20 | the loop computes the expected cost, the sum of `i * (1-p)^i * p` for `i` from 0 to the distance |
| ProbabilisticMaxFlowRouting.CostRecurrence | routing_sim/routing_algorithms/probabilistic_max_flow_routing.py:18-20 | the expected cost is 0 for distance 0 and grows by the next term with each further hop |
| ProbabilisticMaxFlowRouting.CostNonNegative | routing_sim/routing_algorithms/probabilistic_max_flow_routing.py:16-20 | for a probability `p` the expected cost is never negative |
| ProbabilisticMaxFlowRouting.CostMonotone | routing_sim/routing_algorithms/probabilistic_max_flow_routing.py:16-20 | for a probability `p` the expected cost never decreases with distance |
| ProbabilisticMaxFlowRouting.ScoreNeighbor | routing_sim/routing_algorithms/probabilistic_max_flow_routing.py:34-43 | the body of the scoring loop computes the neighbour's score |
| ProbabilisticMaxFlowRouting.CalculateNextHop | routing_sim/routing_algorithms/probabilistic_max_flow_routing.py:22-47 | the loop computes the candidates ranked by descending score |
| ProbabilisticMaxFlowRouting.GammaDefined | routing_sim/routing_algorithms/probabilistic_max_flow_routing.py:34-37 | a neighbour is scored exactly when the destination is reachable from it |
| ProbabilisticMaxFlowRouting.GammaNoNaN | routing_sim/routing_algorithms/probabilistic_max_flow_routing.py:42 | no score is `nan`, so the sort is well defined |
| ProbabilisticMaxFlowRouting.NextHopsMembers | routing_sim/routing_algorithms/probabilistic_max_flow_routing.py:26-43 | the answer holds, once each, exactly the forwardable neighbours from which the destination is reachable without the source |
| ProbabilisticMaxFlowRouting.NextHopsSorted | routing_sim/routing_algorithms/probabilistic_max_flow_routing.py:46 | the answer is in descending order of score |
| ProbabilisticMaxFlowRouting.NextHopsStable | routing_sim/routing_algorithms/probabilistic_max_flow_routing.py:46 | neighbours with equal scores keep their neighbour order |
| ProbabilisticMaxFlowRouting.PolicySound | routing_sim/routing_algorithms/probabilistic_max_flow_routing.py:26 | the policy only answers forwardable neighbours, without duplicates |
| Arborescences.OutEdges | routing_sim/routing_algorithms/arborescence_routing.py:62 | the out-edges of a node in the directed copy are exactly the arcs along its undirected edges |
| Arborescences.EdgeTotal | routing_sim/routing_algorithms/arborescence_routing.py:66 | the tuple order `sorted` uses is total on arcs |
| Arborescences.LeastEdge | routing_sim/routing_algorithms/arborescence_routing.py:66 | a non-empty set of arcs has a least arc |
| Arborescences.SortEdges | routing_sim/routing_algorithms/arborescence_routing.py:66 | `sorted(candidate_edges)` lists exactly the candidate arcs in strictly increasing order |
| Arborescences.CommitTree | routing_sim/routing_algorithms/arborescence_routing.py:76-79 | attaching a node outside the tree along a topology edge keeps a tree rooted at `r` |
| Arborescences.Scan | routing_sim/routing_algorithms/arborescence_routing.py:66-80 | one pass over the sorted candidates commits the least acceptable arc, if any, adds it to the used arcs and swaps in the rest plus the new node's out-edges; with no acceptable arc nothing changes and the candidates run out |
| Arborescences.Spanning | routing_sim/routing_algorithms/arborescence_routing.py:82-83 | a tree that has reached every node is an arborescence of the topology |
| Arborescences.GrowTree | routing_sim/routing_algorithms/arborescence_routing.py:60-83 | a completed loop yields a spanning arborescence rooted at `r` whose arcs are all used; the used arcs only grow and are all topology arcs |
| Arborescences.ComputeRootedArborescences | routing_sim/routing_algorithms/arborescence_routing.py:46-88 | it raises exactly when condition 1 fails; a build yields `c` spanning arborescences rooted at `r`, all made of used topology arcs |
| Arborescences.ArborescenceRouting.constructor | routing_sim/routing_algorithms/arborescence_routing.py:10-14 | the policy starts with an empty packing, zero arborescences and index 0 |
| Arborescences.ArborescenceRouting.ComputeArborescencePacking | routing_sim/routing_algorithms/arborescence_routing.py:90-99 | the count becomes the edge connectivity; each stored destination keeps its old trees or gets a full packing; success packs every node; a raise means condition 1 failed for some node |
| Arborescences.ArborescenceRouting.SwitchArborescence | routing_sim/routing_algorithms/arborescence_routing.py:101-102 | the index advances by one modulo the count, staying below it; with no arborescence the modulo raises and nothing changes |
| Arborescences.SwitchedReturns | routing_sim/routing_algorithms/arborescence_routing.py:102 | switching as many times as there are arborescences returns to the starting index |
| Arborescences.ArborescenceRouting.CalculateNextHop | routing_sim/routing_algorithms/arborescence_routing.py:104-110 | an unknown destination gives `None`; an index past the list raises; in a valid tree an unknown source raises, the destination has no successor and any other node has exactly one, a neighbour |
| Arborescences.SuccessorsInTree | routing_sim/routing_algorithms/arborescence_routing.py:104-110 | in the reversed arborescence a node's only successor is its parent, and the root has none |
| Arborescences.FollowTree | routing_sim/routing_algorithms/arborescence_routing.py:85 | following successors from any tree node walks topology edges, without repeating a node, to the destination |
| EngineInterface.FailedEdges.constructor | routing_sim/simulation_engine/interface.py:10 | the shared failure set starts empty |
| EngineInterface.FailedEdges.AddEdgeFailure | routing_sim/simulation_engine/frr_simulation_engine.py:93-96 | both orientations of the link are added to the shared set, which stays symmetric |
| EngineInterface.RouteCons | routing_sim/simulation_engine.py:46-51 | a router not on a route, joined to the route's start by an edge, extends it to a duplicate-free route |
| EngineInterface.AvoidsCons | routing_sim/simulation_engine/frr_simulation_engine.py:53-60 | stepping over a link that has not failed keeps a walk clear of failed links |
| EngineInterface.BacktrackFrom | routing_sim/simulation_engine.py:39-43 | a router out of options counts one backtrack, logs it towards `path[-2]` when there is one, and is popped; the visited set is kept |
| Simulation.SimulationEngine.constructor | routing_sim/simulation_engine.py:11-13 | the engine keeps its network and starts with fresh metrics |
| Simulation.SimulationEngine.FindRouteRecursive | routing_sim/simulation_engine.py:15-53 | an unknown router changes nothing; `False` restores the path; `True` has pushed a duplicate-free route of new routers from `n` to the destination and logged it as the last entry; a `False` from a router counts one backtrack and logs it towards the previous router; an abort is `Raised` only when some router has no policy and `Unbounded` only when some topology node has no router |
| Simulation.SimulationEngine.TryNextHops | routing_sim/simulation_engine.py:31-53 | after `True` the router's route reaches the destination; after `False` the router is popped, the backtrack counter has grown and the last log entry is the backtrack towards `path[-2]` when there is one; `Unbounded` only when some topology node has no router; `Raised` only when some router has no policy |
| Simulation.SimulationEngine.Search | routing_sim/simulation_engine.py:61-65 | a search from a fresh packet leaves a route from the source to the destination on success and an empty path on failure; it aborts only for a router without a policy or a node without a router |
| Simulation.SimulationEngine.SimulateRouting | routing_sim/simulation_engine.py:55-70 | `None` exactly when an end is not a router; a success yields a duplicate-free route from source to destination with its metrics; a failure yields the empty path; an abort comes only from a router without a policy or a node without a router |
| FrrSimulation.FrrSimulationEngine.constructor | routing_sim/simulation_engine/frr_simulation_engine.py:13-16 | the engine keeps its network and the shared failure set, and starts with fresh metrics |
| FrrSimulation.FrrSimulationEngine.FindRouteRecursive | routing_sim/simulation_engine/frr_simulation_engine.py:18-67 | as the base engine, and the route found crosses no failed link; the search always ends, and raises only when the policy answers `None` to some router |
| FrrSimulation.FrrSimulationEngine.TryCandidates | routing_sim/simulation_engine/frr_simulation_engine.py:34-67 | the candidate loop skips failed links and ends with the router's route on success; on exhaustion it pops the router, counts the backtrack and logs it towards `path[-2]` when there is one; it raises only when the policy answers `None` |
| FrrSimulation.FrrSimulationEngine.ForwardCandidate | routing_sim/simulation_engine/frr_simulation_engine.py:58-66 | forwarding over a live link returns the child's answer: `True` with a route from `n` that crosses no failed link, `False` with the path restored and no fewer routers visited; it raises only when the policy answers `None` |
| FrrSimulation.FrrSimulationEngine.SimulateRouting | routing_sim/simulation_engine/frr_simulation_engine.py:69-91 | as the base engine, with a route that avoids failed links and a CSV row under the policy's name; only a `None` answer of the policy aborts |
| FrrSimulation.FrrSimulationEngine.AddEdgeFailure | routing_sim/simulation_engine/frr_simulation_engine.py:93-96 | both orientations of the link fail in the shared set |
| ArborescenceSimulation.ArborescenceSimulationEngine.constructor | routing_sim/simulation_engine/arborescence_simulation_engine.py:13-16 | the engine keeps its network and the shared failure set, and starts with fresh metrics |
| ArborescenceSimulation.ArborescenceSimulationEngine.FindRouteRecursive | routing_sim/simulation_engine/arborescence_simulation_engine.py:18-57 | an unknown router changes nothing; otherwise the walk pushed starts at `n`, uses only routers, crosses no failed link and follows topology edges when the trees are valid; `True` ends it at the destination and logs it; `False` ends it elsewhere |
| ArborescenceSimulation.ArborescenceSimulationEngine.SelectHop | routing_sim/simulation_engine/arborescence_simulation_engine.py:34-47 | after its `switches` switches the index is that many steps on, modulo the count, from the index the loop started with (unchanged among no arborescence); every index passed over had a failed link to its first successor, and the log gained exactly one failure per switch, in order (`Progress`); every router and index pair the loop adds is at this router and among the indices it tried (`Swept`); it forwards to the first successor in the current tree over a live link, which is a neighbour when the trees are valid; it stops with `Unbounded` only among at least one arborescence and when the index is one already passed over, and with `Raised` only when the lookup yields no first successor, when the link failed and there is no arborescence to switch to, or when a router and index met earlier on the way repeat and the recursion would end in `RecursionError` |
| ArborescenceSimulation.ArborescenceSimulationEngine.TryIndex | routing_sim/simulation_engine/arborescence_simulation_engine.py:36-47 | one pass forwards to the first successor over a live link and logs nothing; it raises when there is no first successor, or when the link failed and there is no arborescence to switch to; otherwise the link to the first successor failed, exactly that failure is logged, and the index becomes `(index + 1) % count` |
| ArborescenceSimulation.PassedMeans | routing_sim/simulation_engine/arborescence_simulation_engine.py:44-47 | an index is among those the switching loop passed over in `k` switches exactly when fewer than `k` switches reach it from the starting index |
| ArborescenceSimulation.SwitchLogMeans | routing_sim/simulation_engine/arborescence_simulation_engine.py:44-47 | when every index passed over had a failed first link, the loop's log of `k` switches has `k` entries, the `j`-th being the failure of the link at the index reached by `j` switches |
| ArborescenceSimulation.ProgressStep | routing_sim/simulation_engine/arborescence_simulation_engine.py:44-47 | one switch past a failed first link keeps the loop's bookkeeping: the index moves to `(index + 1) % count` and that failure joins the log |
| ArborescenceSimulation.ArborescenceSimulationEngine.FirstHop | routing_sim/simulation_engine/arborescence_simulation_engine.py:36-40 | the first successor is taken exactly when the lookup yields a non-empty list |
| ArborescenceSimulation.ArborescenceSimulationEngine.ForwardTo | routing_sim/simulation_engine/arborescence_simulation_engine.py:50-57 | the hop's answer is returned as it is, after the walk has been extended from `n` |
| ArborescenceSimulation.ArborescenceSimulationEngine.Search | routing_sim/simulation_engine/arborescence_simulation_engine.py:66-69 | a search from a fresh packet leaves a walk from the source that avoids failed links and ends at the destination exactly on success |
| ArborescenceSimulation.ArborescenceSimulationEngine.SimulateRouting | routing_sim/simulation_engine/arborescence_simulation_engine.py:59-81 | `None` exactly when an end is not a router; a success yields a walk from source to destination that avoids failed links, with its metrics and CSV row; a failure yields the unpopped walk and no metrics |
| ArborescenceSimulation.ArborescenceSimulationEngine.AddEdgeFailure | routing_sim/simulation_engine/arborescence_simulation_engine.py:83-86 | both orientations of the link fail in the shared set |
| Metrics.RoutingMetrics.constructor | routing_sim/metrics.py:12-15 | the metrics start with an empty log and a zero counter |
| Metrics.RoutingMetrics.LogForwarding | routing_sim/metrics.py:17-22 | exactly one forwarding entry is appended; the counter is unchanged |
| Metrics.RoutingMetrics.LogFailure | routing_sim/metrics.py:24-29 | exactly one failure entry is appended; the counter is unchanged |
| Metrics.RoutingMetrics.LogBacktrack | routing_sim/metrics.py:31-38 | the counter always grows by one; an entry is appended only when there is a previous router |
| Metrics.RoutingMetrics.LogSuccess | routing_sim/metrics.py:40-45 | exactly one success entry carrying the route is appended |
| Metrics.Pruned | routing_sim/metrics.py:78-85 | removing route edges from the copy keeps it well formed with the same nodes |
| Metrics.PrunedEdges | routing_sim/metrics.py:78-85 | the copy keeps exactly the topology edges that join no two consecutive route nodes |
| Metrics.RemoveRouteEdges | routing_sim/metrics.py:81-85 | the removal loop computes the pruned copy |
| Metrics.AlternateTotal | routing_sim/metrics.py:92-94 | the accumulation loop computes the sum of alternate-path counts, a failed flow counting 0 |
| Metrics.RoutingMetrics.ComputeFinalMetrics | routing_sim/metrics.py:57-102 | metrics exist exactly for a route ending at the destination; they report its hop count, degree sum, backtracks and the alternate-path average over the interior nodes, which is not available for routes of at most two nodes |
| Metrics.RoutingMetrics.SaveMetricsToCsv | routing_sim/metrics.py:104-150 | a row exists exactly for a route ending at the destination, with the experiment and policy names, hop count, degree sum, backtracks and the alternate-path average, 0 for routes of at most two nodes |

## Left out

- The networkx algorithms (shortest path length, maximum flow, edge-disjoint paths, edge connectivity) are parameters of type `Library`, because their internals belong to networkx.
- `_condition_1` and `_condition_4` of `arborescence_routing.py` are the parameters `FlowConditions`, because they run maximum flow on auxiliary graphs with string-named nodes. The trees built are therefore not proved edge-disjoint, only spanning and made of used topology arcs.
- Printing and `debug_print`'s effect, the log lines' text, the CSV file (its path, header and appending) and `round(..., 3)` are left out, because they are I/O and formatting.
- Nodes are integers; the source allows strings or integers. Floats are exact reals plus `±inf` and `nan`, with no rounding.
- `Topology.Degree`: the degree of a node missing from the graph is 0, where networkx raises. Route nodes are always topology nodes.
- `switch_arborescence` of `DijkstraRouting` and `ProbabilisticMaxFlowRouting` (which raise `NotImplementedError`) is left out. The arborescence engine is modelled only with `ArborescenceRouting`.
- The name string of `ProbabilisticMaxFlowRouting` is left out, because it embeds Python's float formatting. The fast-reroute engine takes the policy's name as a parameter.
- `topology_generation.py` and `example.py` are not part of this model.
- Exceptions other than those the model names (an unknown node in networkx calls, `pop` on an empty path) are left out. `RecordBacktrackingHop` requires a non-empty path, which every caller guarantees.
- `Router.get_next_hop` is called with `routing_algorithm=` in the fast-reroute and arborescence engines, which raises `TypeError` as written. The model asks the engine's policy directly.
- The fast-reroute engine writes `next_hop_candidates += 1` where the candidate index is meant. The model advances the index.
- The arborescence engine applies `[0]` to the successors iterator, which raises as written. The model takes the first successor.
- Simulation.SimulationEngine.FindRouteRecursive: requires every router's policy to be sound (to answer only forwardable neighbours). `MaxFlowRouting.PolicySound` proves this of the pair policy.
- FrrSimulation.FrrSimulationEngine.FindRouteRecursive: requires the list policy to be sound. `DijkstraRouting.PolicySound` and `ProbabilisticMaxFlowRouting.PolicySound` prove this of both list policies.
- ArborescenceSimulation.ArborescenceSimulationEngine.FindRouteRecursive: the walk is proved to follow topology edges only when every stored tree spans the topology. A packing computed for another topology can name arbitrary nodes.
- ArborescenceSimulation.ArborescenceSimulationEngine.SimulateRouting: the result is not claimed duplicate-free, because the walk may revisit a router after switching arborescences.
- The engines' contracts do not state that the log only grows during a search. Each `Log` method states its own append.
- Routers hold only policies answering a `(hop, score)` pair. A router given a list policy unpacks the list at `router.py:17`: a list of two hops yields the first one, any other list raises `ValueError` and `None` raises `TypeError`. That case is left out; the fast-reroute engine asks its list policy directly.
- Edge weights are not checked to be non-negative, and the shortest path length networkx returns is taken to be a natural number. A negative weight, on which networkx raises or answers a negative length, is left out.
- Python's recursion limit is not modelled for searches that would end on their own: a route longer than about 1000 routers would raise `RecursionError` in every engine. Only the arborescence engine's endless recursion is reported, as `Raised`.
- `Router.routing_table` is created empty and never used. It is modelled as a field with no operation.
