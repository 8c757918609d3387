/** simulation_engine/arborescence_simulation_engine.py: a packet follows
    the current arborescence towards the destination; when the link to the
    next hop has failed, the router switches to the next arborescence and
    asks again. A hop's answer is returned as it is: there is no
    backtracking and nothing is popped.

    The source passes `routing_algorithm=algorithm` to `Router.get_next_hop`,
    which takes no such parameter, and indexes `[0]` into the successors
    iterator. The model follows the evident intent: the arborescence policy
    is asked directly and the first successor is taken.

    The next hop depends only on the router and the arborescence index, so
    once the loop of some router meets a pair of router and index it has
    met before on the way, everything after repeats. Switching round to an
    index already tried in the same loop spins in that loop for ever, which
    the model reports as `Unbounded`. A packet brought back to a router with
    an index already used there repeats a cycle that forwards at least once,
    so every turn adds frames until Python raises `RecursionError`, which
    the model reports as `Raised`. `seen` is the set of pairs met so far on
    the way and exists only to tell these apart. */
module ArborescenceSimulation {
  import opened Common
  import opened Topology
  import opened Oracle
  import opened Packets
  import opened Networks
  import opened Metrics
  import opened Arborescences
  import opened EngineInterface

  /** The pairs of a router and an arborescence index below `bound`. */
  function States(keys: set<Node>, bound: nat): set<(Node, nat)>
  {
    set x, i: nat | x in keys && i < bound :: (x, i)
  }

  lemma InStates(keys: set<Node>, bound: nat, x: Node, i: nat)
    requires x in keys && i < bound
    ensures (x, i) in States(keys, bound)
  {
  }

  /** Every stored arborescence spans the topology, rooted at its destination. */
  ghost predicate TreesValid(g: Graph, packing: map<Node, seq<Arborescence>>)
  {
    forall d, k :: d in packing && 0 <= k < |packing[d]| ==> IsArborescence(g, d, packing[d][k])
  }

  /** The first successor of `n` in the lookup with the tree at `index`,
      when the lookup yields one. */
  function FirstAt(packing: map<Node, seq<Arborescence>>, index: nat, n: Node, dest: Node): Option<Node>
  {
    var l := LookupAt(packing, index, n, dest);
    if l.Hops? && l.hops != [] then Some(l.hops[0]) else None
  }

  /** The link from `n` to its first successor in the tree at `index` is
      among the failed links `edges`. */
  predicate LinkFailedAt(edges: set<(Node, Node)>, packing: map<Node, seq<Arborescence>>, index: nat, n: Node, dest: Node)
  {
    FirstAt(packing, index, n, dest).Some? && (n, FirstAt(packing, index, n, dest).value) in edges
  }

  /** The indices the switching loop passes over in its first `k` switches
      from index `i` among `count` trees. */
  function Passed(i: nat, count: nat, k: nat): set<nat>
    requires count > 0
  {
    if k == 0 then {} else Passed(i, count, k - 1) + {Switched(i, count, k - 1)}
  }

  /** An index is passed over exactly when it is reached by fewer than `k`
      switches. */
  lemma {:induction false} PassedMeans(i: nat, count: nat, k: nat, x: nat)
    requires count > 0
    ensures x in Passed(i, count, k) <==> exists j :: 0 <= j < k && Switched(i, count, j) == x
  {
    if k > 0 {
      PassedMeans(i, count, k - 1, x);
      if x == Switched(i, count, k - 1) {
        assert 0 <= k - 1 < k && Switched(i, count, k - 1) == x;
      }
      if exists j :: 0 <= j < k && Switched(i, count, j) == x {
        var j :| 0 <= j < k && Switched(i, count, j) == x;
        assert j < k - 1 || x == Switched(i, count, k - 1);
      }
    }
  }

  /** The failures the switching loop logs in its first `k` switches at
      router `n`, one per failed link to a first successor. */
  function SwitchLog(packing: map<Node, seq<Arborescence>>, n: Node, dest: Node, i: nat, count: nat, k: nat): seq<LogEntry>
    requires count > 0
  {
    if k == 0 then []
    else
      var hop := FirstAt(packing, Switched(i, count, k - 1), n, dest);
      SwitchLog(packing, n, dest, i, count, k - 1) + (if hop.Some? then [Failure(n, hop.value)] else [])
  }

  /** When every index passed over had a failed first link, the log of the
      first `k` switches holds one failure per switch, the `j`-th for the
      link at the index reached by `j` switches. */
  lemma {:induction false} SwitchLogMeans(edges: set<(Node, Node)>, packing: map<Node, seq<Arborescence>>, n: Node, dest: Node,
                                          i: nat, count: nat, k: nat)
    requires count > 0
    requires forall j :: 0 <= j < k ==> LinkFailedAt(edges, packing, Switched(i, count, j), n, dest)
    ensures |SwitchLog(packing, n, dest, i, count, k)| == k
    ensures forall j :: 0 <= j < k ==>
              && FirstAt(packing, Switched(i, count, j), n, dest).Some?
              && SwitchLog(packing, n, dest, i, count, k)[j] == Failure(n, FirstAt(packing, Switched(i, count, j), n, dest).value)
  {
    if k > 0 {
      SwitchLogMeans(edges, packing, n, dest, i, count, k - 1);
      assert LinkFailedAt(edges, packing, Switched(i, count, k - 1), n, dest);
    }
  }

  /** Where the switching loop at router `n` stands after `switches`
      switches from index `start` among `count` trees: the index is that
      many steps on, every index passed over had a failed first link, and
      each of those failures was appended to the log `logs0`. Among no
      trees nothing switches. */
  predicate Progress(edges: set<(Node, Node)>, packing: map<Node, seq<Arborescence>>, n: Node, dest: Node,
                     start: nat, count: nat, switches: nat, index: nat, logs0: seq<LogEntry>, logs: seq<LogEntry>)
  {
    if count == 0 then switches == 0 && index == start
    else
      && index == Switched(start, count, switches)
      && (forall j :: 0 <= j < switches ==> LinkFailedAt(edges, packing, Switched(start, count, j), n, dest))
      && logs == logs0 + SwitchLog(packing, n, dest, start, count, switches)
  }

  /** One more switch past a failed first link: the index moves one step
      on and the failure joins the log. */
  lemma ProgressStep(edges: set<(Node, Node)>, packing: map<Node, seq<Arborescence>>, n: Node, dest: Node,
                     start: nat, count: nat, switches: nat, index: nat, logs0: seq<LogEntry>, logs: seq<LogEntry>)
    requires Progress(edges, packing, n, dest, start, count, switches, index, logs0, logs)
    requires count > 0 && LinkFailedAt(edges, packing, index, n, dest)
    ensures Progress(edges, packing, n, dest, start, count, switches + 1, (index + 1) % count, logs0,
                     logs + [Failure(n, FirstAt(packing, index, n, dest).value)])
  {
    AppendAssoc(logs0, SwitchLog(packing, n, dest, start, count, switches), [Failure(n, FirstAt(packing, index, n, dest).value)]);
    forall j | 0 <= j < switches + 1
      ensures LinkFailedAt(edges, packing, Switched(start, count, j), n, dest)
    {
      if j == switches {
        assert Switched(start, count, j) == index;
      }
    }
  }

  /** The bookkeeping of the switching loop at router `n`, entered with
      the pairs `seen` and the log `logs0`: it has made `switches` switches
      (`Progress`), and every pair it added to `seen` is at `n`, with an
      index among the first `tried` it passed over. Among no trees it logs
      nothing and adds at most its one pair. */
  predicate Swept(edges: set<(Node, Node)>, packing: map<Node, seq<Arborescence>>, n: Node, dest: Node,
                  start: nat, count: nat, seen: set<(Node, nat)>, states: set<(Node, nat)>,
                  switches: nat, tried: nat, index: nat, logs0: seq<LogEntry>, logs: seq<LogEntry>)
  {
    && seen <= states
    && Progress(edges, packing, n, dest, start, count, switches, index, logs0, logs)
    && (count == 0 ==> logs == logs0 && tried <= 1)
    && (forall p :: p in states && p !in seen ==>
          p.0 == n && (if count == 0 then p.1 == start && tried == 1 else p.1 in Passed(start, count, tried)))
  }

  /** Trying the index reached by the switches made so far adds its pair
      and counts it as passed over. */
  lemma SweptTry(edges: set<(Node, Node)>, packing: map<Node, seq<Arborescence>>, n: Node, dest: Node,
                 start: nat, count: nat, seen: set<(Node, nat)>, states: set<(Node, nat)>,
                 switches: nat, index: nat, logs0: seq<LogEntry>, logs: seq<LogEntry>)
    requires Swept(edges, packing, n, dest, start, count, seen, states, switches, switches, index, logs0, logs)
    ensures Swept(edges, packing, n, dest, start, count, seen, states + {(n, index)}, switches, switches + 1, index, logs0, logs)
  {
    if count > 0 {
      assert Passed(start, count, switches + 1) == Passed(start, count, switches) + {Switched(start, count, switches)};
    }
  }

  /** A switch past the failed first link at the index just tried. */
  lemma SweptSwitch(edges: set<(Node, Node)>, packing: map<Node, seq<Arborescence>>, n: Node, dest: Node,
                    start: nat, count: nat, seen: set<(Node, nat)>, states: set<(Node, nat)>,
                    switches: nat, index: nat, logs0: seq<LogEntry>, logs: seq<LogEntry>)
    requires Swept(edges, packing, n, dest, start, count, seen, states, switches, switches + 1, index, logs0, logs)
    requires count > 0 && LinkFailedAt(edges, packing, index, n, dest)
    ensures Swept(edges, packing, n, dest, start, count, seen, states, switches + 1, switches + 1, Switched(index, count, 1), logs0,
                  logs + [Failure(n, FirstAt(packing, index, n, dest).value)])
  {
    ProgressStep(edges, packing, n, dest, start, count, switches, index, logs0, logs);
  }

  /** Meeting again a pair this loop added: there are trees to switch
      among and the index is one already passed over. The bookkeeping
      still holds when one more index counts as tried. */
  lemma SweptRepeat(edges: set<(Node, Node)>, packing: map<Node, seq<Arborescence>>, n: Node, dest: Node,
                    start: nat, count: nat, seen: set<(Node, nat)>, states: set<(Node, nat)>,
                    switches: nat, index: nat, logs0: seq<LogEntry>, logs: seq<LogEntry>)
    requires Swept(edges, packing, n, dest, start, count, seen, states, switches, switches, index, logs0, logs)
    requires (n, index) in states
    ensures (n, index) !in seen ==> count > 0 && index in Passed(start, count, switches)
    ensures Swept(edges, packing, n, dest, start, count, seen, states, switches, switches + 1, index, logs0, logs)
  {
    if count > 0 {
      assert Passed(start, count, switches + 1) == Passed(start, count, switches) + {Switched(start, count, switches)};
    }
  }

  /** A pass that stops without switching logs nothing more when there
      are trees to switch among. */
  lemma SweptStop(edges: set<(Node, Node)>, packing: map<Node, seq<Arborescence>>, n: Node, dest: Node,
                  start: nat, count: nat, seen: set<(Node, nat)>, states: set<(Node, nat)>,
                  switches: nat, index: nat, logs0: seq<LogEntry>, logs: seq<LogEntry>, logs1: seq<LogEntry>)
    requires Swept(edges, packing, n, dest, start, count, seen, states, switches, switches + 1, index, logs0, logs)
    requires count > 0 ==> logs1 == logs
    requires count == 0 ==> switches == 0 && index == start
    ensures Progress(edges, packing, n, dest, start, count, switches, index, logs0, logs1)
  {
  }

  /** How the loop at a router ends: it stops with an outcome, or forwards
      to a hop. */
  datatype Choice = Stop(outcome: Outcome) | Forward(hop: Node)

  class ArborescenceSimulationEngine {
    const network: Network
    const metrics: RoutingMetrics
    /** The `failed_edges` set shared with every other engine. */
    const failed: FailedEdges

    constructor (network: Network, failed: FailedEdges, debugPrint: bool := true)
      ensures this.network == network && this.failed == failed && fresh(metrics)
      ensures metrics.logs == [] && metrics.backtrackCounter == 0 && metrics.debugPrint == debugPrint
    {
      this.network := network;
      this.failed := failed;
      metrics := new RoutingMetrics(debugPrint);
    }

    /** `_find_route_recursive(packet, n, algorithm)`. An unknown router
        changes nothing. Otherwise the router is pushed, and every return
        leaves it pushed: a `True` return has pushed a walk of routers from
        `n` to the destination that crosses no failed link, and a `False`
        return a walk from `n` that ends short of the destination. Only the
        arborescence index may change, and it stays below `bound`. */
    method FindRouteRecursive(packet: Packet, n: Node, algorithm: ArborescenceRouting, ghost bound: nat, seen: set<(Node, nat)>)
      returns (outcome: Outcome, ghost route: seq<Node>)
      requires network.Valid() && packet.Valid()
      requires algorithm.arborescenceIndex < bound && algorithm.numberOfArborescences <= bound
      modifies packet, metrics, algorithm
      ensures packet.Valid() && old(packet.visited) <= packet.visited
      ensures algorithm.arborescencePacking == old(algorithm.arborescencePacking)
      ensures algorithm.numberOfArborescences == old(algorithm.numberOfArborescences)
      ensures algorithm.arborescenceIndex < bound
      ensures metrics.backtrackCounter == old(metrics.backtrackCounter)
      ensures n !in network.routers ==>
                && outcome == Exhausted && route == [] && packet.path == old(packet.path)
                && packet.visited == old(packet.visited) && metrics.logs == old(metrics.logs)
                && algorithm.arborescenceIndex == old(algorithm.arborescenceIndex)
      ensures (outcome.Reached? || outcome.Exhausted?) ==> packet.path == old(packet.path) + route
      ensures (outcome.Reached? || outcome.Exhausted?) && n in network.routers ==>
                && route != [] && route[0] == n
                && (forall x :: x in route ==> x in network.routers)
                && AvoidsFailures(route, failed.edges)
                && (TreesValid(network.topology, algorithm.arborescencePacking) ==> Steps(network.topology, route))
      ensures outcome == Exhausted && n in network.routers ==> Last(route) != packet.destination
      ensures outcome == Reached ==>
                && Last(route) == packet.destination
                && metrics.logs != [] && Last(metrics.logs) == Success(packet.path)
      decreases States(network.routers.Keys, bound) - seen, 1
    {
      route := [];
      if n !in network.routers {
        return Exhausted, [];
      }
      packet.RecordHop(n);
      if n == packet.destination {
        metrics.LogSuccess(packet.path);
        return Reached, [n];
      }
      var choice, states, switches := SelectHop(n, packet.destination, packet.visited, algorithm, bound, seen);
      if choice.Stop? {
        return choice.outcome, [];
      }
      ghost var rest;
      outcome, rest := ForwardTo(packet, n, choice.hop, algorithm, bound, states);
      route := [n] + rest;
      AppendAssoc(old(packet.path), [n], rest);
    }

    /** The `while True` loop of `_find_route_recursive` at router `n` up to
        the forwarding: the first successor of `n` in the current
        arborescence. A failed link to it is logged and the next
        arborescence is tried, until a hop over a live link is found. No
        entry for the destination, an index past its list, a router outside
        the tree or one with no successor raises, as does switching among no
        arborescence. Meeting again an index this loop has already tried is
        `Unbounded`; meeting a router and index met earlier on the way ends
        in `RecursionError`, so it is `Raised`. Only the index and the log
        change: after `switches` switches the index is that many steps on
        from where it started, every index passed over had a failed first
        link, and each of those failures is logged in order. */
    method SelectHop(n: Node, dest: Node, visited: set<Node>, algorithm: ArborescenceRouting, ghost bound: nat, seen: set<(Node, nat)>)
      returns (choice: Choice, states: set<(Node, nat)>, ghost switches: nat)
      requires network.Valid() && n in network.routers
      requires algorithm.arborescenceIndex < bound && algorithm.numberOfArborescences <= bound
      modifies metrics, algorithm
      ensures algorithm.arborescencePacking == old(algorithm.arborescencePacking)
      ensures algorithm.numberOfArborescences == old(algorithm.numberOfArborescences)
      ensures algorithm.arborescenceIndex < bound
      ensures metrics.backtrackCounter == old(metrics.backtrackCounter)
      ensures seen <= states
      ensures Progress(failed.edges, algorithm.arborescencePacking, n, dest, old(algorithm.arborescenceIndex),
                       algorithm.numberOfArborescences, switches, algorithm.arborescenceIndex, old(metrics.logs), metrics.logs)
      ensures choice != Stop(Raised) ==>
                Swept(failed.edges, algorithm.arborescencePacking, n, dest, old(algorithm.arborescenceIndex),
                      algorithm.numberOfArborescences, seen, states, switches, switches + 1, algorithm.arborescenceIndex,
                      old(metrics.logs), metrics.logs)
      ensures choice.Stop? ==> choice.outcome in {Raised, Unbounded}
      ensures choice == Stop(Unbounded) ==>
                && algorithm.numberOfArborescences > 0
                && algorithm.arborescenceIndex in Passed(old(algorithm.arborescenceIndex), algorithm.numberOfArborescences, switches)
      ensures choice == Stop(Raised) ==>
                || (n, algorithm.arborescenceIndex) in seen
                || FirstAt(algorithm.arborescencePacking, algorithm.arborescenceIndex, n, dest).None?
                || (algorithm.numberOfArborescences == 0 &&
                    LinkFailedAt(failed.edges, algorithm.arborescencePacking, algorithm.arborescenceIndex, n, dest))
      ensures choice.Forward? ==>
                && (n, choice.hop) !in failed.edges
                && FirstAt(algorithm.arborescencePacking, algorithm.arborescenceIndex, n, dest) == Some(choice.hop)
                && (TreesValid(network.topology, algorithm.arborescencePacking) ==> HasEdge(network.topology, n, choice.hop))
                && States(network.routers.Keys, bound) - states < States(network.routers.Keys, bound) - seen
    {
      states := seen;
      switches := 0;
      ghost var space := States(network.routers.Keys, bound);
      ghost var start := algorithm.arborescenceIndex;
      ghost var count := algorithm.numberOfArborescences;
      ghost var packing := algorithm.arborescencePacking;
      ghost var edges := failed.edges;
      while true
        invariant algorithm.arborescencePacking == packing
        invariant algorithm.numberOfArborescences == count
        invariant algorithm.arborescenceIndex < bound
        invariant metrics.backtrackCounter == old(metrics.backtrackCounter)
        invariant failed.edges == edges
        invariant Swept(edges, packing, n, dest, start, count, seen, states, switches, switches,
                        algorithm.arborescenceIndex, old(metrics.logs), metrics.logs)
        decreases space - states
      {
        var index := algorithm.arborescenceIndex;
        if (n, index) in states {
          choice := Stop(if (n, index) in seen then Raised else Unbounded);
          SweptRepeat(edges, packing, n, dest, start, count, seen, states, switches, index, old(metrics.logs), metrics.logs);
          break;
        }
        InStates(network.routers.Keys, bound, n, index);
        SweptTry(edges, packing, n, dest, start, count, seen, states, switches, index, old(metrics.logs), metrics.logs);
        states := states + {(n, index)};
        ghost var before := metrics.logs;
        var pass := TryIndex(n, dest, visited, algorithm);
        if pass.Some? {
          SweptStop(edges, packing, n, dest, start, count, seen, states, switches, index, old(metrics.logs), before, metrics.logs);
          choice := pass.value;
          break;
        }
        SweptSwitch(edges, packing, n, dest, start, count, seen, states, switches, index, old(metrics.logs), before);
        switches := switches + 1;
      }
    }

    /** One pass of the switching loop at the current index: forward to the
        first successor over a live link, raise when there is none, or log
        the failed link and switch to the next arborescence (`None`), which
        raises among no arborescence. */
    method TryIndex(n: Node, dest: Node, visited: set<Node>, algorithm: ArborescenceRouting) returns (pass: Option<Choice>)
      requires network.Valid()
      modifies metrics, algorithm
      ensures algorithm.arborescencePacking == old(algorithm.arborescencePacking)
      ensures algorithm.numberOfArborescences == old(algorithm.numberOfArborescences)
      ensures metrics.backtrackCounter == old(metrics.backtrackCounter)
      ensures pass.Some? ==> algorithm.arborescenceIndex == old(algorithm.arborescenceIndex)
      ensures pass.None? ==>
                && algorithm.numberOfArborescences > 0
                && algorithm.arborescenceIndex == (old(algorithm.arborescenceIndex) + 1) % algorithm.numberOfArborescences
                && algorithm.arborescenceIndex == Switched(old(algorithm.arborescenceIndex), algorithm.numberOfArborescences, 1)
                && LinkFailedAt(failed.edges, algorithm.arborescencePacking, old(algorithm.arborescenceIndex), n, dest)
                && metrics.logs == old(metrics.logs) +
                     [Failure(n, FirstAt(algorithm.arborescencePacking, old(algorithm.arborescenceIndex), n, dest).value)]
      ensures pass.Some? ==> pass.value == Stop(Raised) || pass.value.Forward?
      ensures pass.Some? && pass.value.Forward? ==> metrics.logs == old(metrics.logs)
      ensures pass.Some? && algorithm.numberOfArborescences > 0 ==> metrics.logs == old(metrics.logs)
      ensures pass == Some(Stop(Raised)) ==>
                || FirstAt(algorithm.arborescencePacking, algorithm.arborescenceIndex, n, dest).None?
                || (algorithm.numberOfArborescences == 0 &&
                    LinkFailedAt(failed.edges, algorithm.arborescencePacking, algorithm.arborescenceIndex, n, dest))
      ensures pass.Some? && pass.value.Forward? ==>
                && (n, pass.value.hop) !in failed.edges
                && FirstAt(algorithm.arborescencePacking, algorithm.arborescenceIndex, n, dest) == Some(pass.value.hop)
                && (TreesValid(network.topology, algorithm.arborescencePacking) ==> HasEdge(network.topology, n, pass.value.hop))
    {
      var next := FirstHop(n, dest, visited, algorithm);
      if next.None? {
        return Some(Stop(Raised));
      }
      if (n, next.value) !in failed.edges {
        return Some(Forward(next.value));
      }
      metrics.LogFailure(n, next.value);
      var raised := algorithm.SwitchArborescence();
      if raised {
        return Some(Stop(Raised));
      }
      return None;
    }

    /** `get_next_hop(...)[0]` at router `n`: the first successor of `n` in
        the current arborescence towards `dest`, or `None` when the lookup
        raises or yields no successor. In a spanning tree the hop is a
        neighbour of `n`. */
    method FirstHop(n: Node, dest: Node, visited: set<Node>, algorithm: ArborescenceRouting) returns (hop: Option<Node>)
      requires network.Valid()
      ensures var l := algorithm.CalculateNextHop(n, dest, network.topology, visited);
              && (hop.Some? <==> l.Hops? && l.hops != [])
              && (hop.Some? ==> hop.value == l.hops[0])
      ensures hop == FirstAt(algorithm.arborescencePacking, algorithm.arborescenceIndex, n, dest)
      ensures hop.Some? && TreesValid(network.topology, algorithm.arborescencePacking) ==>
                HasEdge(network.topology, n, hop.value)
    {
      var lookup := algorithm.CalculateNextHop(n, dest, network.topology, visited);
      if !lookup.Hops? || lookup.hops == [] {
        return None;
      }
      hop := Some(lookup.hops[0]);
      assert TreesValid(network.topology, algorithm.arborescencePacking) ==> HasEdge(network.topology, n, hop.value) by {
        if TreesValid(network.topology, algorithm.arborescencePacking) {
          var a := algorithm.arborescencePacking[dest][algorithm.arborescenceIndex];
          assert IsArborescence(network.topology, dest, a);
        }
      }
    }

    /** The forwarding step of the loop: the forwarding is logged and the
        hop's answer is returned unchanged. */
    method ForwardTo(packet: Packet, n: Node, hop: Node, algorithm: ArborescenceRouting, ghost bound: nat, seen: set<(Node, nat)>)
      returns (outcome: Outcome, ghost rest: seq<Node>)
      requires network.Valid() && packet.Valid()
      requires algorithm.arborescenceIndex < bound && algorithm.numberOfArborescences <= bound
      requires n in network.routers && n != packet.destination
      requires (n, hop) !in failed.edges
      requires TreesValid(network.topology, algorithm.arborescencePacking) ==> HasEdge(network.topology, n, hop)
      modifies packet, metrics, algorithm
      ensures packet.Valid() && old(packet.visited) <= packet.visited
      ensures algorithm.arborescencePacking == old(algorithm.arborescencePacking)
      ensures algorithm.numberOfArborescences == old(algorithm.numberOfArborescences)
      ensures algorithm.arborescenceIndex < bound
      ensures metrics.backtrackCounter == old(metrics.backtrackCounter)
      ensures (outcome.Reached? || outcome.Exhausted?) ==> packet.path == old(packet.path) + rest
      ensures (outcome.Reached? || outcome.Exhausted?) ==>
                && (forall x :: x in rest ==> x in network.routers)
                && AvoidsFailures([n] + rest, failed.edges)
                && (TreesValid(network.topology, algorithm.arborescencePacking) ==> Steps(network.topology, [n] + rest))
      ensures outcome == Exhausted ==> Last([n] + rest) != packet.destination
      ensures outcome == Reached ==>
                && rest != [] && Last(rest) == packet.destination
                && metrics.logs != [] && Last(metrics.logs) == Success(packet.path)
      decreases States(network.routers.Keys, bound) - seen, 2
    {
      metrics.LogForwarding(n, hop);
      outcome, rest := FindRouteRecursive(packet, hop, algorithm, bound, seen);
      if (outcome.Reached? || outcome.Exhausted?) && hop in network.routers {
        AvoidsCons(n, rest, failed.edges);
        if TreesValid(network.topology, algorithm.arborescencePacking) {
          StepsCons(network.topology, n, rest);
        }
      }
    }

    /** The search of `simulate_routing` from a router: a fresh packet, then
        `_find_route_recursive` from the source. A `True` or `False` return
        leaves on the packet exactly the walk the search pushed. */
    method Search(source: Node, dest: Node, algorithm: ArborescenceRouting) returns (outcome: Outcome, packet: Packet)
      requires network.Valid() && source in network.routers
      modifies metrics, algorithm
      ensures fresh(packet) && packet.destination == dest
      ensures algorithm.arborescencePacking == old(algorithm.arborescencePacking)
      ensures outcome.Reached? || outcome.Exhausted? ==>
                && packet.path != [] && packet.path[0] == source
                && AvoidsFailures(packet.path, failed.edges)
                && (TreesValid(network.topology, algorithm.arborescencePacking) ==> Steps(network.topology, packet.path))
      ensures outcome.Reached? ==> Last(packet.path) == dest
      ensures outcome.Exhausted? ==> Last(packet.path) != dest
    {
      packet := new Packet(source, dest);
      ghost var bound := if algorithm.arborescenceIndex < algorithm.numberOfArborescences
                         then algorithm.numberOfArborescences else algorithm.arborescenceIndex + 1;
      ghost var route;
      outcome, route := FindRouteRecursive(packet, source, algorithm, bound, {});
    }

    /** `simulate_routing(source, dest, algorithm, experiment_name, file_path)`.
        A success yields a walk from the source to the destination crossing
        no failed link, over topology edges when the stored arborescences
        span the topology, with its metrics and CSV row. A failure leaves
        the walk the packet took on the path: it starts at the source, falls
        short of the destination, and yields no metrics. */
    method SimulateRouting(source: Node, dest: Node, algorithm: ArborescenceRouting, experimentName: string, lib: Library)
      returns (result: RunResult, report: Option<Report>, row: Option<CsvRow>)
      requires network.Valid()
      modifies metrics, algorithm
      ensures result.NotInNetwork? <==> source !in network.routers || dest !in network.routers
      ensures result.NotInNetwork? ==> report.None? && row.None? && metrics.logs == old(metrics.logs)
      ensures result.Completed? && result.success ==>
                && result.path != [] && result.path[0] == source && Last(result.path) == dest
                && AvoidsFailures(result.path, failed.edges)
                && (TreesValid(network.topology, algorithm.arborescencePacking) ==> Walk(network.topology, result.path, source, dest))
                && report.Some? && report.value.routeLength == |result.path| - 1
                && row.Some? && row.value.algorithm == Name && row.value.experimentName == experimentName
      ensures result.Completed? && !result.success ==>
                && result.path != [] && result.path[0] == source && Last(result.path) != dest
                && report.None? && row.None?
      ensures result.Aborted? ==> result.outcome in {Raised, Unbounded} && report.None? && row.None?
    {
      report, row := None, None;
      if source !in network.routers || dest !in network.routers {
        return NotInNetwork, None, None;
      }
      var outcome, packet := Search(source, dest, algorithm);
      if outcome == Raised || outcome == Unbounded {
        return Aborted(outcome), None, None;
      }
      report := metrics.ComputeFinalMetrics(packet, network.topology, lib);
      row := metrics.SaveMetricsToCsv(experimentName, Name, packet, network.topology, lib);
      return Completed(outcome == Reached, packet.path), report, row;
    }

    /** `add_edge_failure((u, v))`, on the set every engine shares. */
    method AddEdgeFailure(u: Node, v: Node)
      modifies failed
      ensures failed.edges == old(failed.edges) + {(u, v), (v, u)}
      ensures old(failed.Symmetric()) ==> failed.Symmetric()
    {
      failed.AddEdgeFailure(u, v);
    }
  }
}
