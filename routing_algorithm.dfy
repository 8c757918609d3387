/** What the routing policies share (routing_algorithms/interface.py and the
    common shape of the policies): a policy is asked for the next hop(s)
    from `source` towards `dest` on a topology, avoiding a visited set. The
    ranking policies filter the neighbours, score them, drop the ones with
    no score (no onward path), sort the rest stably and return the hops. */
module RoutingAlgorithm {
  import opened Common
  import opened Topology
  import opened Sorting

  /** A policy answering `(next_hop, score)`, as `MaxFlowRouting` does. */
  type PairPolicy = (Node, Node, Graph, set<Node>) -> (Option<Node>, Score)

  /** A policy answering a ranked list of next hops; `None` stands for a
      policy that answers Python's `None`. */
  type ListPolicy = (Node, Node, Graph, set<Node>) -> Option<seq<Node>>

  /** A neighbour's score; `None` when the neighbour is skipped. */
  type Scoring = Node -> Option<Score>

  /** `x` is a neighbour of `source`, not `source` itself, and not visited. */
  predicate CanForward(g: Graph, source: Node, visited: set<Node>, x: Node)
  {
    x in Neighbors(g, source) && x != source && x !in visited
  }

  function KeepEligible(ns: seq<Node>, source: Node, visited: set<Node>): (r: seq<Node>)
    ensures forall x :: x in r <==> x in ns && x != source && x !in visited
    ensures Distinct(ns) ==> Distinct(r)
  {
    if ns == [] then []
    else
      var rest := KeepEligible(ns[1..], source, visited);
      assert Distinct(ns) ==> ns[0] !in ns[1..] && Distinct(ns[1..]) by {
        if Distinct(ns) {
          DistinctTail(ns);
        }
      }
      if ns[0] != source && ns[0] !in visited then [ns[0]] + rest else rest
  }

  /** `[n for n in g.neighbors(source) if n != source and n not in visited]`. */
  function Eligible(g: Graph, source: Node, visited: set<Node>): (r: seq<Node>)
    ensures forall x :: x in r <==> CanForward(g, source, visited, x)
    ensures WellFormed(g) ==> Distinct(r)
  {
    KeepEligible(Neighbors(g, source), source, visited)
  }

  /** A policy's single answer is a forwardable neighbour, on every well-formed topology. */
  ghost predicate PairSound(p: PairPolicy)
  {
    forall s, d, g, v :: WellFormed(g) && p(s, d, g, v).0.Some? ==> CanForward(g, s, v, p(s, d, g, v).0.value)
  }

  /** A duplicate-free list of forwardable neighbours. */
  predicate Forwardable(g: Graph, source: Node, visited: set<Node>, hops: seq<Node>)
  {
    Distinct(hops) && forall i :: 0 <= i < |hops| ==> CanForward(g, source, visited, hops[i])
  }

  /** A policy's list answers are duplicate-free forwardable neighbours, on every well-formed topology. */
  ghost predicate ListSound(p: ListPolicy)
  {
    forall s, d, g, v :: WellFormed(g) && p(s, d, g, v).Some? ==> Forwardable(g, s, v, p(s, d, g, v).value)
  }

  /** Each entry of a sound list policy's answer is a forwardable neighbour,
      and the answer is no longer than the router's set of neighbours. */
  lemma ListAnswer(p: ListPolicy, g: Graph, s: Node, d: Node, v: set<Node>, i: nat)
    requires ListSound(p) && WellFormed(g) && p(s, d, g, v).Some? && i < |p(s, d, g, v).value|
    ensures CanForward(g, s, v, p(s, d, g, v).value[i])
    ensures |p(s, d, g, v).value| <= |Elements(Neighbors(g, s))|
  {
    var hops := p(s, d, g, v).value;
    assert Forwardable(g, s, v, hops);
    DistinctWithin(hops, Elements(Neighbors(g, s)));
  }

  function Entry(x: Node, f: Scoring): seq<Scored>
  {
    match f(x)
    case None => []
    case Some(v) => [(x, v)]
  }

  /** The `(neighbour, score)` list a scoring loop builds, in neighbour order,
      skipping the neighbours whose score is `None`. */
  function ScoreAll(ns: seq<Node>, f: Scoring): seq<Scored>
  {
    if ns == [] then [] else Entry(ns[0], f) + ScoreAll(ns[1..], f)
  }

  lemma {:induction false} ScoreAllAppend(a: seq<Node>, b: seq<Node>, f: Scoring)
    ensures ScoreAll(a + b, f) == ScoreAll(a, f) + ScoreAll(b, f)
  {
    if a == [] {
      assert a + b == b;
    } else {
      ScoreAllAppend(a[1..], b, f);
      assert (a + b)[0] == a[0] && (a + b)[1..] == a[1..] + b;
      calc {
        ScoreAll(a + b, f);
        Entry(a[0], f) + ScoreAll(a[1..] + b, f);
        Entry(a[0], f) + (ScoreAll(a[1..], f) + ScoreAll(b, f));
        { AppendAssoc(Entry(a[0], f), ScoreAll(a[1..], f), ScoreAll(b, f)); }
        (Entry(a[0], f) + ScoreAll(a[1..], f)) + ScoreAll(b, f);
      }
    }
  }

  /** The list holds `(x, v)` exactly when `x` is a neighbour scored `v`. */
  lemma {:induction false} ScoreAllMember(ns: seq<Node>, f: Scoring, x: Node, v: Score)
    ensures (x, v) in ScoreAll(ns, f) <==> x in ns && f(x) == Some(v)
  {
    if ns != [] {
      ScoreAllMember(ns[1..], f, x, v);
      assert ns == [ns[0]] + ns[1..];
    }
  }

  lemma {:induction false} ScoreAllDistinct(ns: seq<Node>, f: Scoring)
    requires Distinct(ns)
    ensures Distinct(Hops(ScoreAll(ns, f)))
  {
    if ns != [] {
      DistinctTail(ns);
      ScoreAllDistinct(ns[1..], f);
      var rest := ScoreAll(ns[1..], f);
      HopsAppend(Entry(ns[0], f), rest);
      if f(ns[0]).Some? {
        forall i | 0 <= i < |Hops(rest)| ensures Hops(rest)[i] != ns[0] {
          HopsAt(rest, i);
          assert rest[i] in rest;
          ScoreAllMember(ns[1..], f, rest[i].0, rest[i].1);
        }
      }
    }
  }

  /** The ranked hops: `scored.sort(key=lambda x: x[1], reverse=descending)`
      followed by `[hop[0] for hop in scored]`. */
  function Rank(ns: seq<Node>, f: Scoring, descending: bool): seq<Node>
  {
    Hops(SortByScore(ScoreAll(ns, f), descending))
  }

  /** Every entry of the sorted list pairs a neighbour with its own score. */
  lemma SortedEntries(ns: seq<Node>, f: Scoring, descending: bool)
    ensures forall e :: e in SortByScore(ScoreAll(ns, f), descending) ==> e.0 in ns && f(e.0) == Some(e.1)
  {
    SortPermutes(ScoreAll(ns, f), descending);
    forall e | e in SortByScore(ScoreAll(ns, f), descending) ensures e.0 in ns && f(e.0) == Some(e.1) {
      assert e in multiset(SortByScore(ScoreAll(ns, f), descending));
      ScoreAllMember(ns, f, e.0, e.1);
    }
  }

  /** The ranked hops are exactly the neighbours that received a score. */
  lemma RankMembers(ns: seq<Node>, f: Scoring, descending: bool)
    ensures forall x :: x in Rank(ns, f, descending) <==> x in ns && f(x).Some?
  {
    var s := ScoreAll(ns, f);
    var t := SortByScore(s, descending);
    SortPermutes(s, descending);
    SortedEntries(ns, f, descending);
    forall x ensures x in Hops(t) <==> x in ns && f(x).Some? {
      if x in Hops(t) {
        var i :| 0 <= i < |Hops(t)| && Hops(t)[i] == x;
        HopsAt(t, i);
        assert t[i] in t;
      }
      if x in ns && f(x).Some? {
        ScoreAllMember(ns, f, x, f(x).value);
        assert (x, f(x).value) in multiset(t);
        var i :| 0 <= i < |t| && t[i] == (x, f(x).value);
        HopsAt(t, i);
      }
    }
  }

  /** Distinct neighbours give distinct ranked hops. */
  lemma RankDistinct(ns: seq<Node>, f: Scoring, descending: bool)
    requires Distinct(ns)
    ensures Distinct(Rank(ns, f, descending))
  {
    var s := ScoreAll(ns, f);
    ScoreAllDistinct(ns, f);
    SortPermutes(s, descending);
    HopsPermute(s, SortByScore(s, descending));
    DistinctPermutation(Hops(s), Rank(ns, f, descending));
  }

  /** No neighbour is scored NaN. */
  predicate NoNaN(ns: seq<Node>, f: Scoring)
  {
    forall x :: x in ns && f(x).Some? ==> !f(x).value.NaN?
  }

  /** Hops in order of their scores (ascending, or descending). */
  predicate InScoreOrder(r: seq<Node>, f: Scoring, descending: bool)
  {
    forall i, j :: 0 <= i < j < |r| ==> ScoredInOrder(f, descending, r[i], r[j])
  }

  /** Both hops are scored, and `x`'s score comes no later than `y`'s. */
  predicate ScoredInOrder(f: Scoring, descending: bool, x: Node, y: Node)
  {
    f(x).Some? && f(y).Some? && InOrder(descending, f(x).value, f(y).value)
  }

  /** The ranked hops are in score order. */
  lemma RankSorted(ns: seq<Node>, f: Scoring, descending: bool)
    requires NoNaN(ns, f)
    ensures InScoreOrder(Rank(ns, f, descending), f, descending)
  {
    var s := ScoreAll(ns, f);
    var t := SortByScore(s, descending);
    SortedEntries(ns, f, descending);
    assert Comparable(s) by {
      forall i | 0 <= i < |s| ensures !s[i].1.NaN? {
        assert s[i] in s;
        ScoreAllMember(ns, f, s[i].0, s[i].1);
      }
    }
    SortSorts(s, descending);
    HopsInScoreOrder(t, f, descending);
  }

  lemma HopsInScoreOrder(t: seq<Scored>, f: Scoring, descending: bool)
    requires SortedBy(t, descending)
    requires forall e :: e in t ==> f(e.0) == Some(e.1)
    ensures InScoreOrder(Hops(t), f, descending)
  {
    var r := Hops(t);
    forall i, j | 0 <= i < j < |r|
      ensures ScoredInOrder(f, descending, r[i], r[j])
    {
      HopsPairInOrder(t, f, descending, i, j);
    }
  }

  lemma HopsPairInOrder(t: seq<Scored>, f: Scoring, descending: bool, i: nat, j: nat)
    requires SortedBy(t, descending)
    requires forall e :: e in t ==> f(e.0) == Some(e.1)
    requires i < j < |t|
    ensures ScoredInOrder(f, descending, Hops(t)[i], Hops(t)[j])
  {
    HopsAt(t, i);
    HopsAt(t, j);
    assert t[i] in t && t[j] in t;
  }

  /** The neighbours in `ns` with score `k`, in order. */
  function WithScore(ns: seq<Node>, f: Scoring, k: Score): seq<Node>
  {
    if ns == [] then [] else (if f(ns[0]) == Some(k) then [ns[0]] else []) + WithScore(ns[1..], f, k)
  }

  lemma {:induction false} HopsWithKey(s: seq<Scored>, f: Scoring, k: Score)
    requires forall e :: e in s ==> f(e.0) == Some(e.1)
    ensures WithScore(Hops(s), f, k) == Hops(WithKey(s, k))
  {
    if s != [] {
      assert s[0] in s;
      assert forall e :: e in s[1..] ==> e in s;
      HopsWithKey(s[1..], f, k);
      assert Hops(s)[1..] == Hops(s[1..]);
      if s[0].1 == k {
        assert Hops([s[0]] + WithKey(s[1..], k)) == [s[0].0] + Hops(WithKey(s[1..], k));
      }
    }
  }

  lemma {:induction false} ScoreAllWithKey(ns: seq<Node>, f: Scoring, k: Score)
    ensures Hops(WithKey(ScoreAll(ns, f), k)) == WithScore(ns, f, k)
  {
    if ns != [] {
      ScoreAllWithKey(ns[1..], f, k);
      var rest := ScoreAll(ns[1..], f);
      match f(ns[0])
      case None =>
        assert ScoreAll(ns, f) == rest;
      case Some(v) =>
        assert ScoreAll(ns, f) == [(ns[0], v)] + rest;
        assert ([(ns[0], v)] + rest)[1..] == rest;
        if v == k {
          assert Hops([(ns[0], v)] + WithKey(rest, k)) == [ns[0]] + Hops(WithKey(rest, k));
        }
    }
  }

  /** Stability: the ranked hops with any given score come in neighbour order. */
  lemma RankStable(ns: seq<Node>, f: Scoring, descending: bool, k: Score)
    requires NoNaN(ns, f)
    ensures WithScore(Rank(ns, f, descending), f, k) == WithScore(ns, f, k)
  {
    var s := ScoreAll(ns, f);
    var t := SortByScore(s, descending);
    assert Comparable(s) by {
      forall i | 0 <= i < |s| ensures !s[i].1.NaN? {
        assert s[i] in s;
        ScoreAllMember(ns, f, s[i].0, s[i].1);
      }
    }
    SortedEntries(ns, f, descending);
    HopsWithKey(t, f, k);
    SortStable(s, descending, k);
    ScoreAllWithKey(ns, f, k);
  }
}
