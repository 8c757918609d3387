/** routing_algorithms/dijkstra_routing.py: rank the unvisited neighbours by
    their shortest-path distance to the destination on the topology with
    the source removed, nearest first; neighbours with no path are dropped. */
module DijkstraRouting {
  import opened Common
  import opened Topology
  import opened Sorting
  import opened Oracle
  import opened RoutingAlgorithm

  const Name: string := "Algorithm based on Dijkstra's"

  /** A neighbour's score: its onward distance to `dest` on `t`, or `None` when it is infinite. */
  function Distance(lib: Library, dest: Node, t: Graph): Scoring
  {
    (n: Node) =>
      match GetShortestPathLength(lib, n, dest, t)
      case Inf => None
      case Fin(k) => Some(Real(k as real))
  }

  /** The hops `calculate_next_hop` returns. */
  function NextHops(lib: Library, source: Node, dest: Node, g: Graph, visited: set<Node>): seq<Node>
  {
    var ns := Eligible(g, source, visited);
    if ns == [] then [] else Rank(ns, Distance(lib, dest, RemoveNode(g, source)), false)
  }

  /** `calculate_next_hop`: the scoring loop, then the sort. */
  method CalculateNextHop(lib: Library, source: Node, dest: Node, g: Graph, visited: set<Node>)
    returns (hops: seq<Node>)
    ensures hops == NextHops(lib, source, dest, g, visited)
  {
    var neighbors := Eligible(g, source, visited);
    if neighbors == [] {
      return [];
    }
    var temp := RemoveNode(g, source);
    ghost var f := Distance(lib, dest, temp);
    var scored: seq<Scored> := [];
    for i := 0 to |neighbors|
      invariant scored == ScoreAll(neighbors[..i], f)
    {
      var score := GetShortestPathLength(lib, neighbors[i], dest, temp);
      if score != Inf {
        scored := scored + [(neighbors[i], Real(score.n as real))];
      }
      assert neighbors[..i + 1] == neighbors[..i] + [neighbors[i]];
      ScoreAllAppend(neighbors[..i], [neighbors[i]], f);
    }
    assert neighbors[..|neighbors|] == neighbors;
    scored := SortByScore(scored, false);
    hops := Hops(scored);
  }

  /** Exactly the unvisited neighbours other than the source that have a
      path to the destination avoiding the source are returned, each once. */
  lemma NextHopsMembers(lib: Library, source: Node, dest: Node, g: Graph, visited: set<Node>)
    requires WellFormed(g)
    ensures Distinct(NextHops(lib, source, dest, g, visited))
    ensures forall x :: x in NextHops(lib, source, dest, g, visited) <==>
              CanForward(g, source, visited, x) && GetShortestPathLength(lib, x, dest, RemoveNode(g, source)).Fin?
  {
    var ns := Eligible(g, source, visited);
    var f := Distance(lib, dest, RemoveNode(g, source));
    RankMembers(ns, f, false);
    RankDistinct(ns, f, false);
  }

  /** The hops come nearest first. */
  lemma NextHopsSorted(lib: Library, source: Node, dest: Node, g: Graph, visited: set<Node>)
    ensures InScoreOrder(NextHops(lib, source, dest, g, visited), Distance(lib, dest, RemoveNode(g, source)), false)
  {
    var ns := Eligible(g, source, visited);
    var f := Distance(lib, dest, RemoveNode(g, source));
    assert NoNaN(ns, f);
    RankSorted(ns, f, false);
  }

  /** Hops at equal distance keep the topology's neighbour order. */
  lemma NextHopsStable(lib: Library, source: Node, dest: Node, g: Graph, visited: set<Node>, k: Score)
    ensures var f := Distance(lib, dest, RemoveNode(g, source));
            WithScore(NextHops(lib, source, dest, g, visited), f, k) == WithScore(Eligible(g, source, visited), f, k)
  {
    var ns := Eligible(g, source, visited);
    var f := Distance(lib, dest, RemoveNode(g, source));
    assert NoNaN(ns, f);
    RankStable(ns, f, false, k);
  }

  /** The policy as the FRR engine uses it. */
  function Policy(lib: Library): ListPolicy
  {
    (s: Node, d: Node, g: Graph, v: set<Node>) => Some(NextHops(lib, s, d, g, v))
  }

  lemma PolicySound(lib: Library)
    ensures ListSound(Policy(lib))
  {
    forall s, d, g, v | WellFormed(g)
      ensures Forwardable(g, s, v, NextHops(lib, s, d, g, v))
    {
      NextHopsMembers(lib, s, d, g, v);
    }
  }
}
