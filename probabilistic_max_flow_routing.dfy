/** routing_algorithms/probabilistic_max_flow_routing.py: rank the unvisited
    neighbours by MF − λ·C(SP), highest first, where C is the expected
    minimum backtrack cost when each link fails with probability p.
    Neighbours with no path to the destination are dropped. */
module ProbabilisticMaxFlowRouting {
  import opened Common
  import opened Topology
  import opened Sorting
  import opened Oracle
  import opened RoutingAlgorithm

  /** Python's `x ** n` for a natural exponent. */
  function Pow(x: real, n: nat): real
  {
    if n == 0 then 1.0 else x * Pow(x, n - 1)
  }

  /** `i * ((1 - p) ** i) * p`, the series term for `i`. */
  function Term(p: real, i: nat): real
  {
    i as real * Pow(1.0 - p, i) * p
  }

  /** The sum of the terms for `i` in `range(0, n)`. */
  function PartialCost(p: real, n: nat): real
  {
    if n == 0 then 0.0 else PartialCost(p, n - 1) + Term(p, n - 1)
  }

  /** The expected minimum backtrack cost for onward distance `sp`: the terms for `range(0, sp + 1)`. */
  function ExpectedCost(p: real, sp: nat): real
  {
    PartialCost(p, sp + 1)
  }

  /** `_expected_minimum_backtrack_cost`: the accumulating for-loop. */
  method ExpectedMinimumBacktrackCost(p: real, spScore: nat) returns (cost: real)
    ensures cost == ExpectedCost(p, spScore)
  {
    cost := 0.0;
    for i := 0 to spScore + 1
      invariant cost == PartialCost(p, i)
    {
      cost := cost + i as real * Pow(1.0 - p, i) * p;
    }
  }

  /** The cost of a zero-length path is 0, and each extra hop adds its term. */
  lemma CostRecurrence(p: real, k: nat)
    ensures ExpectedCost(p, 0) == 0.0
    ensures ExpectedCost(p, k + 1) == ExpectedCost(p, k) + (k + 1) as real * Pow(1.0 - p, k + 1) * p
  {
    assert Term(p, 0) == 0.0;
    assert ExpectedCost(p, 0) == PartialCost(p, 1) == PartialCost(p, 0) + Term(p, 0);
  }

  lemma {:induction false} PowNonNegative(x: real, n: nat)
    requires 0.0 <= x
    ensures 0.0 <= Pow(x, n)
  {
    if n > 0 {
      PowNonNegative(x, n - 1);
    }
  }

  lemma TermNonNegative(p: real, i: nat)
    requires 0.0 <= p <= 1.0
    ensures 0.0 <= Term(p, i)
  {
    PowNonNegative(1.0 - p, i);
    var q := Pow(1.0 - p, i);
    assert 0.0 <= i as real * q;
  }

  /** For a probability `p`, the cost is non-negative. */
  lemma {:induction false} CostNonNegative(p: real, k: nat)
    requires 0.0 <= p <= 1.0
    ensures 0.0 <= ExpectedCost(p, k)
  {
    if k > 0 {
      CostNonNegative(p, k - 1);
      TermNonNegative(p, k);
    } else {
      assert Term(p, 0) == 0.0;
      assert ExpectedCost(p, 0) == PartialCost(p, 1) == PartialCost(p, 0) + Term(p, 0);
    }
  }

  /** For a probability `p`, a longer onward path never costs less. */
  lemma {:induction false} CostMonotone(p: real, k: nat, m: nat)
    requires 0.0 <= p <= 1.0 && k <= m
    ensures ExpectedCost(p, k) <= ExpectedCost(p, m)
    decreases m - k
  {
    if k < m {
      CostMonotone(p, k, m - 1);
      TermNonNegative(p, m);
    }
  }

  /** A neighbour's score `mf_score - (lambda_val * cost)`, or `None` when
      its onward distance is infinite (the `continue` at line 36). */
  function ScoreOf(lib: Library, lambda: real, p: real, n: Node, dest: Node, t: Graph): Option<Score>
  {
    var sp := GetShortestPathLength(lib, n, dest, t);
    if sp.Inf? then None
    else Some(Plus(AsScore(GetMaxFlowValue(lib, n, dest, t)), Real(-(lambda * ExpectedCost(p, sp.n)))))
  }

  function Gamma(lib: Library, lambda: real, p: real, dest: Node, t: Graph): Scoring
  {
    (n: Node) => ScoreOf(lib, lambda, p, n, dest, t)
  }

  /** The hops `calculate_next_hop` returns. */
  function NextHops(lib: Library, lambda: real, p: real, source: Node, dest: Node, g: Graph, visited: set<Node>): seq<Node>
  {
    var ns := Eligible(g, source, visited);
    if ns == [] then [] else Rank(ns, Gamma(lib, lambda, p, dest, RemoveNode(g, source)), true)
  }

  /** One pass of the scoring loop (lines 34-42): `None` for the `continue`. */
  method ScoreNeighbor(lib: Library, lambda: real, p: real, neighbor: Node, dest: Node, temp: Graph)
    returns (score: Option<Score>)
    ensures score == ScoreOf(lib, lambda, p, neighbor, dest, temp)
  {
    var spScore := GetShortestPathLength(lib, neighbor, dest, temp);
    if spScore == Inf {
      return None;
    }
    var mfScore := GetMaxFlowValue(lib, neighbor, dest, temp);
    var cost := ExpectedMinimumBacktrackCost(p, spScore.n);
    var s := Plus(AsScore(mfScore), Real(-(lambda * cost)));
    assert cost == ExpectedCost(p, spScore.n);
    assert ScoreOf(lib, lambda, p, neighbor, dest, temp).Some?;
    assert ScoreOf(lib, lambda, p, neighbor, dest, temp).value == s;
    return Some(s);
  }

  /** `calculate_next_hop`: the scoring loop, then the descending sort. */
  method CalculateNextHop(lib: Library, lambda: real, p: real, source: Node, dest: Node, g: Graph, visited: set<Node>)
    returns (hops: seq<Node>)
    ensures hops == NextHops(lib, lambda, p, source, dest, g, visited)
  {
    var neighbors := Eligible(g, source, visited);
    if neighbors == [] {
      return [];
    }
    var temp := RemoveNode(g, source);
    ghost var f := Gamma(lib, lambda, p, dest, temp);
    var scored: seq<Scored> := [];
    for i := 0 to |neighbors|
      invariant scored == ScoreAll(neighbors[..i], f)
    {
      assert neighbors[..i + 1] == neighbors[..i] + [neighbors[i]];
      ScoreAllAppend(neighbors[..i], [neighbors[i]], f);
      var score := ScoreNeighbor(lib, lambda, p, neighbors[i], dest, temp);
      if score.Some? {
        scored := scored + [(neighbors[i], score.value)];
      }
    }
    assert neighbors[..|neighbors|] == neighbors;
    scored := SortByScore(scored, true);
    hops := Hops(scored);
  }

  lemma GammaNoNaN(lib: Library, lambda: real, p: real, dest: Node, t: Graph, ns: seq<Node>)
    ensures NoNaN(ns, Gamma(lib, lambda, p, dest, t))
  {
    var f := Gamma(lib, lambda, p, dest, t);
    forall x | x in ns && f(x).Some? ensures !f(x).value.NaN? {
      var mf := AsScore(GetMaxFlowValue(lib, x, dest, t));
      assert mf.Real? || mf.PosInf?;
    }
  }

  /** A neighbour is scored exactly when its onward distance is finite. */
  lemma GammaDefined(lib: Library, lambda: real, p: real, dest: Node, t: Graph)
    ensures forall x :: Gamma(lib, lambda, p, dest, t)(x).Some? <==> GetShortestPathLength(lib, x, dest, t).Fin?
  {
    forall x ensures Gamma(lib, lambda, p, dest, t)(x).Some? <==> GetShortestPathLength(lib, x, dest, t).Fin? {
      assert Gamma(lib, lambda, p, dest, t)(x) == ScoreOf(lib, lambda, p, x, dest, t);
    }
  }

  /** Exactly the unvisited neighbours other than the source that have a
      path to the destination avoiding the source are returned, each once. */
  lemma NextHopsMembers(lib: Library, lambda: real, p: real, source: Node, dest: Node, g: Graph, visited: set<Node>)
    requires WellFormed(g)
    ensures Distinct(NextHops(lib, lambda, p, source, dest, g, visited))
    ensures forall x :: x in NextHops(lib, lambda, p, source, dest, g, visited) <==>
              CanForward(g, source, visited, x) && GetShortestPathLength(lib, x, dest, RemoveNode(g, source)).Fin?
  {
    var ns := Eligible(g, source, visited);
    var f := Gamma(lib, lambda, p, dest, RemoveNode(g, source));
    RankMembers(ns, f, true);
    RankDistinct(ns, f, true);
    GammaDefined(lib, lambda, p, dest, RemoveNode(g, source));
  }

  /** The hops come highest score first. */
  lemma NextHopsSorted(lib: Library, lambda: real, p: real, source: Node, dest: Node, g: Graph, visited: set<Node>)
    ensures InScoreOrder(NextHops(lib, lambda, p, source, dest, g, visited), Gamma(lib, lambda, p, dest, RemoveNode(g, source)), true)
  {
    var ns := Eligible(g, source, visited);
    var f := Gamma(lib, lambda, p, dest, RemoveNode(g, source));
    GammaNoNaN(lib, lambda, p, dest, RemoveNode(g, source), ns);
    RankSorted(ns, f, true);
  }

  /** Hops with equal scores keep the topology's neighbour order, although the sort is reversed. */
  lemma NextHopsStable(lib: Library, lambda: real, p: real, source: Node, dest: Node, g: Graph, visited: set<Node>, k: Score)
    ensures var f := Gamma(lib, lambda, p, dest, RemoveNode(g, source));
            WithScore(NextHops(lib, lambda, p, source, dest, g, visited), f, k) == WithScore(Eligible(g, source, visited), f, k)
  {
    var ns := Eligible(g, source, visited);
    var f := Gamma(lib, lambda, p, dest, RemoveNode(g, source));
    GammaNoNaN(lib, lambda, p, dest, RemoveNode(g, source), ns);
    RankStable(ns, f, true, k);
  }

  /** The policy as the FRR engine uses it. */
  function Policy(lib: Library, lambda: real, p: real): ListPolicy
  {
    (s: Node, d: Node, g: Graph, v: set<Node>) => Some(NextHops(lib, lambda, p, s, d, g, v))
  }

  lemma PolicySound(lib: Library, lambda: real, p: real)
    ensures ListSound(Policy(lib, lambda, p))
  {
    forall s, d, g, v | WellFormed(g)
      ensures Forwardable(g, s, v, NextHops(lib, lambda, p, s, d, g, v))
    {
      NextHopsMembers(lib, lambda, p, s, d, g, v);
    }
  }
}
