/** routing_algorithms/max_flow_routing.py: pick the unvisited neighbour
    with the highest score λ·MF + (λ−1)·SP, where SP and MF are its onward
    shortest-path distance and max-flow value to the destination on the
    topology without the source. Neighbours with no path are skipped; the
    comparison is a strict `>`, so the first maximal neighbour wins. */
module MaxFlowRouting {
  import opened Common
  import opened Topology
  import opened Oracle
  import opened RoutingAlgorithm

  const Name: string := "MaxFlowRouting"

  /** `self.weight_sp = (1 - lambda_val) * -1`. */
  function WeightSp(lambda: real): real
  {
    (1.0 - lambda) * -1.0
  }

  /** A neighbour's score `weight_mf * mf + weight_sp * sp`, or `None` when
      its onward distance is infinite (the `continue` at line 33). */
  function Gamma(lib: Library, lambda: real, dest: Node, t: Graph): Scoring
  {
    (n: Node) =>
      match GetShortestPathLength(lib, n, dest, t)
      case Inf => None
      case Fin(sp) => Some(Plus(Times(lambda, AsScore(GetMaxFlowValue(lib, n, dest, t))), Times(WeightSp(lambda), Real(sp as real))))
  }

  /** `(best_next_hop, best_score)` after the loop has seen `ns`. */
  function Best(ns: seq<Node>, f: Scoring): (Option<Node>, Score)
  {
    if ns == [] then (None, NegInf)
    else
      var prev := Best(ns[..|ns| - 1], f);
      match f(Last(ns))
      case None => prev
      case Some(s) => if Greater(s, prev.1) then (Some(Last(ns)), s) else prev
  }

  /** What `calculate_next_hop` returns. */
  function Choice(lib: Library, lambda: real, source: Node, dest: Node, g: Graph, visited: set<Node>): (Option<Node>, Score)
  {
    var ns := Eligible(g, source, visited);
    if ns == [] then (None, NegInf) else Best(ns, Gamma(lib, lambda, dest, RemoveNode(g, source)))
  }

  /** `calculate_next_hop`: the loop updating `best_score` and `best_next_hop`. */
  method CalculateNextHop(lib: Library, lambda: real, source: Node, dest: Node, g: Graph, visited: set<Node>)
    returns (bestNextHop: Option<Node>, bestScore: Score)
    ensures (bestNextHop, bestScore) == Choice(lib, lambda, source, dest, g, visited)
  {
    bestScore := NegInf;
    bestNextHop := None;
    var neighbors := Eligible(g, source, visited);
    if neighbors == [] {
      return None, NegInf;
    }
    var temp := RemoveNode(g, source);
    ghost var f := Gamma(lib, lambda, dest, temp);
    for i := 0 to |neighbors|
      invariant (bestNextHop, bestScore) == Best(neighbors[..i], f)
    {
      assert neighbors[..i + 1][..i] == neighbors[..i];
      var neighbor := neighbors[i];
      var spScore := GetShortestPathLength(lib, neighbor, dest, temp);
      if spScore == Inf {
        continue;
      }
      var mfScore := GetMaxFlowValue(lib, neighbor, dest, temp);
      var score := Plus(Times(lambda, AsScore(mfScore)), Times(WeightSp(lambda), Real(spScore.n as real)));
      if Greater(score, bestScore) {
        bestScore := score;
        bestNextHop := Some(neighbor);
      }
    }
    assert neighbors[..|neighbors|] == neighbors;
  }

  lemma NotAbove(a: Score, b: Score, c: Score)
    requires !Greater(a, b) && Greater(c, b)
    ensures !Greater(a, c)
  {
  }

  lemma Below(a: Score, b: Score, c: Score)
    requires !a.NaN? && !Greater(a, b) && Greater(c, b)
    ensures Greater(c, a)
  {
  }

  /** The hop found is a scored neighbour and the score is its own. */
  lemma {:induction false} BestWinner(ns: seq<Node>, f: Scoring)
    ensures Best(ns, f).0.Some? ==> Best(ns, f).0.value in ns && f(Best(ns, f).0.value) == Some(Best(ns, f).1)
    ensures Best(ns, f).0.None? <==> Best(ns, f).1 == NegInf
    ensures !Best(ns, f).1.NaN?
  {
    if ns != [] {
      BestWinner(ns[..|ns| - 1], f);
      assert ns == ns[..|ns| - 1] + [Last(ns)];
    }
  }

  /** No scored neighbour beats the score found. */
  lemma {:induction false} BestMaximal(ns: seq<Node>, f: Scoring)
    ensures forall x :: x in ns && f(x).Some? ==> !Greater(f(x).value, Best(ns, f).1)
  {
    if ns != [] {
      var pre := ns[..|ns| - 1];
      BestMaximal(pre, f);
      assert ns == pre + [Last(ns)];
      var prev := Best(pre, f);
      if f(Last(ns)).Some? && Greater(f(Last(ns)).value, prev.1) {
        forall x | x in pre && f(x).Some? ensures !Greater(f(x).value, Best(ns, f).1) {
          NotAbove(f(x).value, prev.1, f(Last(ns)).value);
        }
      }
    }
  }

  /** No hop is found exactly when no scored neighbour beats `-inf`. */
  lemma BestNone(ns: seq<Node>, f: Scoring)
    ensures Best(ns, f).0.None? <==> forall x :: x in ns && f(x).Some? ==> !Greater(f(x).value, NegInf)
  {
    BestWinner(ns, f);
    BestMaximal(ns, f);
    var r := Best(ns, f);
    if r.0.Some? {
      var x := r.0.value;
      assert x in ns && f(x) == Some(r.1);
      assert r.1 != NegInf && !r.1.NaN?;
      assert Greater(r.1, NegInf);
    }
  }

  /** Ties go to the earliest neighbour: every non-NaN score before the winner is strictly lower. */
  lemma {:induction false} BestFirst(ns: seq<Node>, f: Scoring, i: nat)
    requires Distinct(ns) && i < |ns| && Best(ns, f).0 == Some(ns[i])
    ensures forall j :: 0 <= j < i && f(ns[j]).Some? && !f(ns[j]).value.NaN? ==> Greater(Best(ns, f).1, f(ns[j]).value)
  {
    var pre := ns[..|ns| - 1];
    var prev := Best(pre, f);
    BestWinner(pre, f);
    assert Last(ns) !in pre by {
      forall k | 0 <= k < |pre| ensures pre[k] != Last(ns) {
        assert pre[k] == ns[k];
      }
    }
    assert Distinct(pre) by {
      forall a, b | 0 <= a < b < |pre| ensures pre[a] != pre[b] {
        assert pre[a] == ns[a] && pre[b] == ns[b];
      }
    }
    if i == |ns| - 1 {
      // the winner is the last neighbour, so the last step replaced `prev`
      assert prev.0 != Some(Last(ns));
      var s := f(Last(ns)).value;
      BestMaximal(pre, f);
      forall j | 0 <= j < i && f(ns[j]).Some? && !f(ns[j]).value.NaN?
        ensures Greater(Best(ns, f).1, f(ns[j]).value)
      {
        assert ns[j] == pre[j];
        Below(f(ns[j]).value, prev.1, s);
      }
    } else {
      assert ns[i] == pre[i];
      assert Best(ns, f) == prev;
      BestFirst(pre, f, i);
      forall j | 0 <= j < i ensures ns[j] == pre[j] { }
    }
  }

  /** The result is `(None, -inf)` exactly when no eligible neighbour with a
      path to the destination scores above `-inf`; in particular when there
      is no eligible neighbour, or none with a path. */
  lemma ChoiceNone(lib: Library, lambda: real, source: Node, dest: Node, g: Graph, visited: set<Node>)
    ensures var r := Choice(lib, lambda, source, dest, g, visited);
            var f := Gamma(lib, lambda, dest, RemoveNode(g, source));
            (r.0.None? <==> forall x :: CanForward(g, source, visited, x) && f(x).Some? ==> !Greater(f(x).value, NegInf))
            && (r.0.None? <==> r.1 == NegInf)
  {
    var ns := Eligible(g, source, visited);
    var f := Gamma(lib, lambda, dest, RemoveNode(g, source));
    if ns != [] {
      BestNone(ns, f);
      BestWinner(ns, f);
    }
  }

  /** A hop returned is a forwardable neighbour with a path to the
      destination, the score returned is its score, and no eligible
      neighbour scores higher. */
  lemma ChoiceBest(lib: Library, lambda: real, source: Node, dest: Node, g: Graph, visited: set<Node>)
    ensures var r := Choice(lib, lambda, source, dest, g, visited);
            var f := Gamma(lib, lambda, dest, RemoveNode(g, source));
            && (r.0.Some? ==> CanForward(g, source, visited, r.0.value) && f(r.0.value) == Some(r.1)
                              && GetShortestPathLength(lib, r.0.value, dest, RemoveNode(g, source)).Fin?)
            && (forall x :: CanForward(g, source, visited, x) && f(x).Some? ==> !Greater(f(x).value, r.1))
  {
    var ns := Eligible(g, source, visited);
    var f := Gamma(lib, lambda, dest, RemoveNode(g, source));
    if ns != [] {
      BestWinner(ns, f);
      BestMaximal(ns, f);
    }
  }

  /** On a well-formed topology the first maximal neighbour in iteration order wins. */
  lemma ChoiceFirst(lib: Library, lambda: real, source: Node, dest: Node, g: Graph, visited: set<Node>, i: nat)
    requires WellFormed(g)
    requires var ns := Eligible(g, source, visited);
             i < |ns| && Choice(lib, lambda, source, dest, g, visited).0 == Some(ns[i])
    ensures var ns := Eligible(g, source, visited);
            var f := Gamma(lib, lambda, dest, RemoveNode(g, source));
            forall j :: 0 <= j < i && f(ns[j]).Some? && !f(ns[j]).value.NaN? ==>
              Greater(Choice(lib, lambda, source, dest, g, visited).1, f(ns[j]).value)
  {
    BestFirst(Eligible(g, source, visited), Gamma(lib, lambda, dest, RemoveNode(g, source)), i);
  }

  /** The policy as `Router.get_next_hop` uses it. */
  function Policy(lib: Library, lambda: real): PairPolicy
  {
    (s: Node, d: Node, g: Graph, v: set<Node>) => Choice(lib, lambda, s, d, g, v)
  }

  lemma PolicySound(lib: Library, lambda: real)
    ensures PairSound(Policy(lib, lambda))
  {
    forall s, d, g, v | WellFormed(g) && Choice(lib, lambda, s, d, g, v).0.Some?
      ensures CanForward(g, s, v, Choice(lib, lambda, s, d, g, v).0.value)
    {
      ChoiceBest(lib, lambda, s, d, g, v);
    }
  }
}
