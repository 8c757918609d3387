/** routing_algorithms/arborescence_routing.py: for every destination `d`,
    `c` spanning trees rooted at `d` (c = the edge connectivity), grown one
    edge at a time by a greedy builder; a packet follows the current tree
    towards its root and the engine switches trees when a link has failed.
    The two flow conditions the builder consults are max-flow computations
    on auxiliary graphs; they are values of `FlowConditions`. */
module Arborescences {
  import opened Common
  import opened Topology
  import opened Oracle

  const Name: string := "Arborescence Routing"

  /** The builder's two tests, on the topology (made directed by `to_directed`). */
  datatype FlowConditions = FlowConditions(
    /** `_condition_1(r, c, digraph)`. */
    condition1: (Graph, Node, nat) -> bool,
    /** `_condition_4(r, tail, head, c, j, digraph, used_edges)`. */
    condition4: (Graph, Node, Node, Node, nat, nat, set<Edge>) -> bool)

  /** `digraph.out_edges(x)`: both orientations of every undirected edge are arcs. */
  function OutEdges(g: Graph, x: Node): (r: set<Edge>)
    ensures forall e :: e in r <==> e.0 == x && HasEdge(g, x, e.1)
  {
    set y | y in Neighbors(g, x) :: (x, y)
  }

  /** Python's tuple order on arcs. */
  predicate EdgeLess(a: Edge, b: Edge)
  {
    a.0 < b.0 || (a.0 == b.0 && a.1 < b.1)
  }

  lemma EdgeTotal(a: Edge, b: Edge)
    ensures a == b || EdgeLess(a, b) || EdgeLess(b, a)
  {
  }

  predicate Increasing(s: seq<Edge>)
  {
    forall i, j :: 0 <= i < j < |s| ==> EdgeLess(s[i], s[j])
  }

  /** Every non-empty finite set of arcs has a least one. */
  lemma {:induction false} LeastEdge(s: set<Edge>) returns (e: Edge)
    requires s != {}
    ensures e in s && forall f :: f in s ==> !EdgeLess(f, e)
    decreases |s|
  {
    var x :| x in s;
    var t := s - {x};
    if t == {} {
      e := x;
      forall f | f in s ensures !EdgeLess(f, x) {
        assert f !in t;
      }
    } else {
      assert |t| < |s|;
      var m := LeastEdge(t);
      if EdgeLess(x, m) {
        e := x;
        forall f | f in s ensures !EdgeLess(f, x) {
          if f != x {
            assert f in t && !EdgeLess(f, m);
          }
        }
      } else {
        e := m;
        forall f | f in s ensures !EdgeLess(f, m) {
          if f != x {
            assert f in t;
          }
        }
      }
    }
  }

  /** The loop state of `SortEdges`: `r` is sorted, holds exactly what is not
      in `rest`, and lies below everything in `rest`. */
  ghost predicate SortState(s: set<Edge>, r: seq<Edge>, rest: set<Edge>)
  {
    && Elements(r) + rest == s && Elements(r) !! rest
    && Increasing(r)
    && forall i, f :: 0 <= i < |r| && f in rest ==> EdgeLess(r[i], f)
  }

  lemma SortStep(s: set<Edge>, r: seq<Edge>, rest: set<Edge>, e: Edge)
    requires SortState(s, r, rest) && e in rest && forall f :: f in rest ==> !EdgeLess(f, e)
    ensures SortState(s, r + [e], rest - {e})
  {
    ElementsAppend(r, e);
    var longer := r + [e];
    forall i, j | 0 <= i < j < |longer| ensures EdgeLess(longer[i], longer[j]) {
      assert longer[i] == r[i];
    }
    forall i, f | 0 <= i < |longer| && f in rest - {e} ensures EdgeLess(longer[i], f) {
      if i == |r| {
        EdgeTotal(e, f);
      } else {
        assert longer[i] == r[i];
      }
    }
  }

  /** `sorted(candidate_edges)`: the arcs of the set in increasing order. */
  method SortEdges(s: set<Edge>) returns (r: seq<Edge>)
    ensures Elements(r) == s && Increasing(r)
  {
    r := [];
    var rest := s;
    while rest != {}
      invariant SortState(s, r, rest)
      decreases |rest|
    {
      ghost var least := LeastEdge(rest);
      var e :| e in rest && forall f :: f in rest ==> !EdgeLess(f, e);
      SortStep(s, r, rest, e);
      r := r + [e];
      rest := rest - {e};
    }
  }

  /** A tree grown from a root: its nodes in the order they joined (the root
      first) and the node each other node hangs from. The source stores the
      reversed tree, whose single successor of a node is this parent. */
  datatype Arborescence = Arborescence(order: seq<Node>, parent: map<Node, Node>)

  /** The `k`-th node to join hangs, by an edge of `g`, from a node that joined before it. */
  ghost predicate HangsBefore(g: Graph, a: Arborescence, k: int)
  {
    && 0 < k < |a.order| && a.order[k] in a.parent
    && a.parent[a.order[k]] in a.order[..k] && HasEdge(g, a.parent[a.order[k]], a.order[k])
  }

  /** A tree of `g` rooted at `r`: every non-root node hangs from one that joined before it. */
  ghost predicate IsTree(g: Graph, r: Node, a: Arborescence)
  {
    && |a.order| > 0 && a.order[0] == r && Distinct(a.order)
    && Elements(a.order) <= NodeSet(g)
    && a.parent.Keys == Elements(a.order) - {r}
    && forall k :: 0 < k < |a.order| ==> HangsBefore(g, a, k)
  }

  /** What `nx.is_arborescence` accepts here: a tree spanning every node. */
  ghost predicate IsArborescence(g: Graph, r: Node, a: Arborescence)
  {
    IsTree(g, r, a) && Elements(a.order) == NodeSet(g)
  }

  /** `arbo.add_edge(u, v)` for a new head `v`. */
  function Commit(a: Arborescence, u: Node, v: Node): Arborescence
  {
    Arborescence(a.order + [v], a.parent[v := u])
  }

  /** Hanging a node outside the tree from a tree node, by an edge, keeps a tree. */
  lemma CommitTree(g: Graph, r: Node, a: Arborescence, u: Node, v: Node)
    requires WellFormed(g) && IsTree(g, r, a)
    requires u in a.order && v !in a.order && HasEdge(g, u, v)
    ensures IsTree(g, r, Commit(a, u, v))
  {
    var b := Commit(a, u, v);
    var n := |a.order|;
    assert Distinct(b.order) by {
      forall i, j | 0 <= i < j < |b.order| ensures b.order[i] != b.order[j] {
        if j == n {
          assert b.order[i] == a.order[i];
        } else {
          assert b.order[i] == a.order[i] && b.order[j] == a.order[j];
        }
      }
    }
    ElementsAppend(a.order, v);
    assert v != r;
    forall k | 0 < k < |b.order| ensures HangsBefore(g, b, k) {
      if k < n {
        assert HangsBefore(g, a, k);
        assert b.order[k] == a.order[k] && b.order[..k] == a.order[..k];
      } else {
        assert b.order[..k] == a.order;
      }
    }
  }

  /** The candidate arcs leave tree nodes and are arcs of the topology. */
  ghost predicate CandidatesFrom(g: Graph, a: Arborescence, cands: set<Edge>)
  {
    forall e :: e in cands ==> e.0 in a.order && HasEdge(g, e.0, e.1)
  }

  /** A candidate the builder commits when it scans it: its head is outside
      the tree and Condition 4 holds. */
  predicate Acceptable(g: Graph, r: Node, c: nat, j: nat, conds: FlowConditions, a: Arborescence, used: set<Edge>, e: Edge)
  {
    e.1 !in a.order && conds.condition4(g, r, e.0, e.1, c, j, used)
  }

  /** In an increasing list holding exactly `s`, the entries up to `s[i]` are
      the members of `s` not above it. */
  lemma SortedPrefix(sorted: seq<Edge>, s: set<Edge>, i: nat)
    requires Elements(sorted) == s && Increasing(sorted) && i < |sorted|
    ensures Elements(sorted[..i + 1]) == set f | f in s && !EdgeLess(sorted[i], f)
  {
    forall f | f in s ensures f in sorted[..i + 1] <==> !EdgeLess(sorted[i], f) {
      var k :| 0 <= k < |sorted| && sorted[k] == f;
      if k <= i {
        assert sorted[..i + 1][k] == f;
      }
    }
  }

  /** One pass of `for u, v in sorted(candidate_edges)` (lines 66-80): every
      arc scanned is removed; the first acceptable one in sorted order is
      committed, its head's arcs become candidates and the pass stops.
      `chosen` is `None` when the pass commits nothing, which empties the set. */
  method Scan(g: Graph, r: Node, c: nat, j: nat, conds: FlowConditions, a: Arborescence, cands: set<Edge>, used: set<Edge>)
    returns (tree: Arborescence, remaining: set<Edge>, usedAfter: set<Edge>, chosen: Option<Edge>)
    requires WellFormed(g) && IsTree(g, r, a) && CandidatesFrom(g, a, cands)
    ensures IsTree(g, r, tree) && CandidatesFrom(g, tree, remaining)
    ensures chosen.None? ==>
              && tree == a && usedAfter == used && remaining == {}
              && forall e :: e in cands ==> !Acceptable(g, r, c, j, conds, a, used, e)
    ensures chosen.Some? ==>
              var e := chosen.value;
              && e in cands && Acceptable(g, r, c, j, conds, a, used, e)
              && (forall f :: f in cands && EdgeLess(f, e) ==> !Acceptable(g, r, c, j, conds, a, used, f))
              && tree == Commit(a, e.0, e.1) && usedAfter == used + {e}
              && remaining == (set f | f in cands && EdgeLess(e, f)) + OutEdges(g, e.1)
  {
    var sorted := SortEdges(cands);
    tree, remaining, usedAfter, chosen := a, cands, used, None;
    for i := 0 to |sorted|
      invariant remaining == cands - Elements(sorted[..i])
      invariant forall k :: 0 <= k < i ==> !Acceptable(g, r, c, j, conds, a, used, sorted[k])
    {
      var e := sorted[i];
      assert sorted[..i + 1] == sorted[..i] + [e];
      ElementsAppend(sorted[..i], e);
      remaining := remaining - {e};
      if e.1 in a.order {
        continue;
      }
      if conds.condition4(g, r, e.0, e.1, c, j, used) {
        SortedPrefix(sorted, cands, i);
        forall f | f in cands && EdgeLess(f, e) ensures !Acceptable(g, r, c, j, conds, a, used, f) {
          var k :| 0 <= k < |sorted| && sorted[k] == f;
          assert k < i;
        }
        assert e in cands;
        CommitTree(g, r, a, e.0, e.1);
        tree := Commit(a, e.0, e.1);
        usedAfter := used + {e};
        remaining := remaining + OutEdges(g, e.1);
        chosen := Some(e);
        return;
      }
    }
    assert sorted[..|sorted|] == sorted;
    forall e | e in cands ensures !Acceptable(g, r, c, j, conds, a, used, e) {
      var k :| 0 <= k < |sorted| && sorted[k] == e;
    }
  }

  /** What `_compute_rooted_arborescences` does: raise when Condition 1
      fails, loop forever when a pass commits nothing before the tree spans
      (the `while` at line 64 never exits), or return the `c` trees. */
  datatype BuildResult = Condition1Failed | Stagnated | Built(arborescences: seq<Arborescence>)

  /** `c` spanning trees rooted at `d`. */
  ghost predicate PackedFor(g: Graph, d: Node, c: nat, arbs: seq<Arborescence>)
  {
    |arbs| == c && forall k :: 0 <= k < c ==> IsArborescence(g, d, arbs[k])
  }

  /** Every arc of the tree, taken from the parent towards the child, is in `s`. */
  ghost predicate TreeArcsIn(a: Arborescence, s: set<Edge>)
  {
    forall x :: x in a.parent ==> (a.parent[x], x) in s
  }

  lemma {:induction false} SubsetFull<T>(a: set<T>, b: set<T>)
    requires a <= b && |b| <= |a|
    ensures a == b
  {
    if a != b {
      assert exists x :: x in b && x !in a;
      var x :| x in b && x !in a;
      SubsetCard(a, b - {x});
    }
  }

  /** The tree loop ends spanning: a duplicate-free node list inside the
      topology as long as its node list covers every node. */
  lemma Spanning(g: Graph, r: Node, a: Arborescence)
    requires WellFormed(g) && IsTree(g, r, a) && |a.order| >= |g.nodes|
    ensures IsArborescence(g, r, a)
  {
    NodesListed(g);
    DistinctCard(a.order);
    SubsetFull(Elements(a.order), NodeSet(g));
  }

  /** The `j`-th tree of `_compute_rooted_arborescences`: from the root
      alone, the scan over the candidates is repeated until the tree spans
      the topology. A scan that commits no edge leaves the `while` loop
      spinning (`ok` false); a spanning tree passes `is_arborescence`. Every
      committed arc joins `used`. */
  method GrowTree(g: Graph, r: Node, c: nat, j: nat, conds: FlowConditions, used: set<Edge>)
    returns (arbo: Arborescence, usedAfter: set<Edge>, ok: bool)
    requires WellFormed(g) && r in NodeSet(g)
    requires forall e :: e in used ==> HasEdge(g, e.0, e.1)
    ensures used <= usedAfter
    ensures forall e :: e in usedAfter ==> HasEdge(g, e.0, e.1)
    ensures ok ==> IsArborescence(g, r, arbo) && TreeArcsIn(arbo, usedAfter)
  {
    arbo := Arborescence([r], map[]);
    usedAfter := used;
    var candidates := OutEdges(g, r) - used;
    while |arbo.order| < |g.nodes|
      invariant IsTree(g, r, arbo) && CandidatesFrom(g, arbo, candidates)
      invariant used <= usedAfter
      invariant TreeArcsIn(arbo, usedAfter)
      invariant forall e :: e in usedAfter ==> HasEdge(g, e.0, e.1)
      decreases |g.nodes| - |arbo.order|
    {
      var chosen;
      arbo, candidates, usedAfter, chosen := Scan(g, r, c, j, conds, arbo, candidates, usedAfter);
      if chosen.None? {
        return arbo, usedAfter, false;
      }
    }
    // the `is_arborescence` check of lines 82-83 cannot fail
    Spanning(g, r, arbo);
    ok := true;
  }

  /** `_compute_rooted_arborescences(r, c, topology)`. `used` is the
      builder's `used_edges`: it holds every committed arc. */
  method ComputeRootedArborescences(g: Graph, r: Node, c: nat, conds: FlowConditions)
    returns (result: BuildResult, ghost used: set<Edge>)
    requires WellFormed(g) && r in NodeSet(g)
    ensures result.Condition1Failed? <==> !conds.condition1(g, r, c)
    ensures result.Built? ==> PackedFor(g, r, c, result.arborescences)
    ensures result.Built? ==> forall k :: 0 <= k < c ==> TreeArcsIn(result.arborescences[k], used)
    ensures forall e :: e in used ==> HasEdge(g, e.0, e.1)
  {
    used := {};
    if !conds.condition1(g, r, c) {
      return Condition1Failed, used;
    }
    var usedEdges: set<Edge> := {};
    var arborescences: seq<Arborescence> := [];
    for j := 1 to c + 1
      invariant usedEdges == used
      invariant |arborescences| == j - 1
      invariant forall k :: 0 <= k < |arborescences| ==> IsArborescence(g, r, arborescences[k])
      invariant forall k :: 0 <= k < |arborescences| ==> TreeArcsIn(arborescences[k], usedEdges)
      invariant forall e :: e in usedEdges ==> HasEdge(g, e.0, e.1)
    {
      var arbo, ok;
      arbo, usedEdges, ok := GrowTree(g, r, c, j, conds, usedEdges);
      used := usedEdges;
      if !ok {
        return Stagnated, used;
      }
      arborescences := arborescences + [arbo];
    }
    return Built(arborescences), used;
  }

  /** How `compute_arborescence_packing` ends. */
  datatype PackingResult = Packed | PackingRaised | PackingStagnated

  /** `arborescence_index` after `k` calls of `switch_arborescence` from `i`. */
  function Switched(i: nat, n: nat, k: nat): nat
    requires n > 0
  {
    if k == 0 then i else (Switched(i, n, k - 1) + 1) % n
  }

  lemma MulAtLeast(m: int, n: int)
    requires m >= 1 && n > 0
    ensures m * n >= n
  {
  }

  lemma MulDistrib(a: int, b: int, n: int)
    ensures a * n - b * n == (a - b) * n
  {
  }

  /** Euclidean remainder is determined by any decomposition `x == q * n + r`. */
  lemma ModUnique(x: int, n: int, q: int, r: int)
    requires n > 0 && 0 <= r < n && x == q * n + r
    ensures x % n == r
  {
    var q0, r0 := x / n, x % n;
    assert x == q0 * n + r0;
    MulDistrib(q, q0, n);
    MulDistrib(q0, q, n);
    if q > q0 {
      MulAtLeast(q - q0, n);
    } else if q < q0 {
      MulAtLeast(q0 - q, n);
    }
  }

  /** Switching from `i` moves one tree on at a time until the last tree. */
  lemma {:induction false} SwitchedAhead(i: nat, n: nat, k: nat)
    requires 0 < n && i + k < n
    ensures Switched(i, n, k) == i + k
  {
    if k > 0 {
      SwitchedAhead(i, n, k - 1);
      ModUnique(i + k, n, 0, i + k);
    }
  }

  /** `a + b` switches are `a` switches followed by `b`. */
  lemma {:induction false} SwitchedSplit(i: nat, n: nat, a: nat, b: nat)
    requires 0 < n
    ensures Switched(i, n, a + b) == Switched(Switched(i, n, a), n, b)
  {
    if b > 0 {
      SwitchedSplit(i, n, a, b - 1);
      var j := Switched(i, n, a);
      var p := Switched(i, n, a + b - 1);
      assert p == Switched(j, n, b - 1);
      assert Switched(i, n, a + b) == (p + 1) % n;
      assert Switched(j, n, b) == (Switched(j, n, b - 1) + 1) % n;
    }
  }

  /** From a valid index, `n` switches among `n` trees come back to the start. */
  lemma SwitchedReturns(i: nat, n: nat)
    requires 0 < n && i < n
    ensures Switched(i, n, n) == i
  {
    SwitchedAhead(i, n, n - 1 - i);
    ModUnique(n, n, 1, 0);
    SwitchedSplit(i, n, n - 1 - i, 1);
    SwitchedSplit(i, n, n - i, i);
    SwitchedAhead(0, n, i);
  }

  /** What `calculate_next_hop` returns: `None` without an entry for the
      destination, the raise of an index past the list or of a source that
      is not in the tree, or the source's successors. */
  datatype Lookup = NoEntry | LookupRaises | Hops(hops: seq<Node>)

  /** The lookup `calculate_next_hop` makes with the tree at position
      `index` of the entry for `dest`: no entry, an index past the list, or
      the tree's successors of `source`. */
  function LookupAt(packing: map<Node, seq<Arborescence>>, index: nat, source: Node, dest: Node): Lookup
  {
    if dest !in packing then NoEntry
    else if index >= |packing[dest]| then LookupRaises
    else Successors(packing[dest][index], source)
  }

  /** `arbo.reverse().successors(x)`. */
  function Successors(a: Arborescence, x: Node): Lookup
  {
    if x !in a.order then LookupRaises
    else if x in a.parent then Hops([a.parent[x]])
    else Hops([])
  }

  /** The position of `x` in `s`. */
  function IndexOf(s: seq<Node>, x: Node): (i: nat)
    requires x in s
    ensures i < |s| && s[i] == x
    ensures forall k :: 0 <= k < i ==> s[k] != x
  {
    if s[0] == x then 0 else 1 + IndexOf(s[1..], x)
  }

  /** In a tree, the parent of a node other than the root joined earlier. */
  lemma ParentEarlier(g: Graph, r: Node, a: Arborescence, x: Node)
    requires IsTree(g, r, a) && x in a.order && x != r
    ensures x in a.parent && a.parent[x] in a.order
    ensures IndexOf(a.order, a.parent[x]) < IndexOf(a.order, x)
    ensures HasEdge(g, a.parent[x], x)
  {
    var k := IndexOf(a.order, x);
    assert k > 0;
    assert HangsBefore(g, a, k);
    var y := a.parent[x];
    var m :| 0 <= m < k && a.order[..k][m] == y;
    assert a.order[m] == y;
  }

  /** The walk from `x` along parents, up to the root. */
  function PathToRoot(g: Graph, r: Node, a: Arborescence, x: Node): (p: seq<Node>)
    requires IsTree(g, r, a) && x in a.order
    ensures p != [] && p[0] == x
    decreases IndexOf(a.order, x)
  {
    if x == r then [r]
    else
      ParentEarlier(g, r, a, x);
      [x] + PathToRoot(g, r, a, a.parent[x])
  }

  /** In a spanning tree, a node outside the topology has no successors
      to ask for, the root has none, and any other node has exactly its
      parent, a neighbour. */
  lemma SuccessorsInTree(g: Graph, d: Node, a: Arborescence, x: Node)
    requires WellFormed(g) && IsArborescence(g, d, a)
    ensures x !in NodeSet(g) <==> Successors(a, x).LookupRaises?
    ensures x == d ==> Successors(a, x) == Hops([])
    ensures x in NodeSet(g) && x != d ==> Successors(a, x) == Hops([a.parent[x]]) && HasEdge(g, x, a.parent[x])
  {
    if x in NodeSet(g) && x != d {
      ParentEarlier(g, d, a, x);
    }
  }

  class ArborescenceRouting {
    /** For each destination, its list of trees. */
    var arborescencePacking: map<Node, seq<Arborescence>>
    var numberOfArborescences: nat
    var arborescenceIndex: nat

    constructor ()
      ensures arborescencePacking == map[] && numberOfArborescences == 0 && arborescenceIndex == 0
    {
      arborescencePacking := map[];
      numberOfArborescences := 0;
      arborescenceIndex := 0;
    }

    /** `compute_arborescence_packing`: the count becomes the edge
        connectivity, and every node in turn gets its `c` trees. On a raise
        or a stagnation the nodes already handled keep their new trees;
        every other entry keeps its old value. */
    method ComputeArborescencePacking(g: Graph, lib: Library, conds: FlowConditions) returns (result: PackingResult)
      requires WellFormed(g)
      modifies this
      ensures numberOfArborescences == lib.edgeConnectivity(g)
      ensures arborescenceIndex == old(arborescenceIndex)
      ensures old(arborescencePacking).Keys <= arborescencePacking.Keys
      ensures forall d :: d in arborescencePacking ==>
                || (d in old(arborescencePacking) && arborescencePacking[d] == old(arborescencePacking)[d])
                || (d in NodeSet(g) && PackedFor(g, d, numberOfArborescences, arborescencePacking[d]))
      ensures result == Packed ==>
                forall d :: d in NodeSet(g) ==>
                  && conds.condition1(g, d, numberOfArborescences) && d in arborescencePacking
                  && PackedFor(g, d, numberOfArborescences, arborescencePacking[d])
      ensures result == PackingRaised ==> exists d :: d in NodeSet(g) && !conds.condition1(g, d, numberOfArborescences)
    {
      var c := lib.edgeConnectivity(g);
      numberOfArborescences := c;
      NodesListed(g);
      var nodes := g.nodes;
      for i := 0 to |nodes|
        invariant numberOfArborescences == c && arborescenceIndex == old(arborescenceIndex)
        invariant old(arborescencePacking).Keys <= arborescencePacking.Keys
        invariant forall d :: d in arborescencePacking ==>
                    || (d in old(arborescencePacking) && arborescencePacking[d] == old(arborescencePacking)[d])
                    || (d in NodeSet(g) && PackedFor(g, d, c, arborescencePacking[d]))
        invariant forall k :: 0 <= k < i ==> conds.condition1(g, nodes[k], c) && nodes[k] in arborescencePacking &&
                                             PackedFor(g, nodes[k], c, arborescencePacking[nodes[k]])
      {
        var d := nodes[i];
        var built, used := ComputeRootedArborescences(g, d, c, conds);
        match built {
          case Condition1Failed =>
            return PackingRaised;
          case Stagnated =>
            return PackingStagnated;
          case Built(arbs) =>
            arborescencePacking := arborescencePacking[d := arbs];
        }
      }
      forall x | x in NodeSet(g)
        ensures conds.condition1(g, x, c) && x in arborescencePacking && PackedFor(g, x, c, arborescencePacking[x])
      {
        var k :| 0 <= k < |nodes| && nodes[k] == x;
      }
      return Packed;
    }

    /** `switch_arborescence`: the next tree, cyclically; with no trees the
        modulo raises `ZeroDivisionError`. */
    method SwitchArborescence() returns (raised: bool)
      modifies this
      ensures raised <==> numberOfArborescences == 0
      ensures arborescencePacking == old(arborescencePacking) && numberOfArborescences == old(numberOfArborescences)
      ensures raised ==> arborescenceIndex == old(arborescenceIndex)
      ensures !raised ==> arborescenceIndex == Switched(old(arborescenceIndex), numberOfArborescences, 1)
      ensures !raised ==> arborescenceIndex < numberOfArborescences
    {
      if numberOfArborescences == 0 {
        return true;
      }
      arborescenceIndex := (arborescenceIndex + 1) % numberOfArborescences;
      return false;
    }

    /** `calculate_next_hop`: the source's successors in the current tree
        towards `dest`. In a spanning tree of `g` a node other than the root
        has exactly one successor, a neighbour, and the root has none. */
    function CalculateNextHop(source: Node, dest: Node, g: Graph, visited: set<Node>): (r: Lookup)
      reads this
      ensures r.NoEntry? <==> dest !in arborescencePacking
      ensures dest in arborescencePacking && arborescenceIndex >= |arborescencePacking[dest]| ==> r.LookupRaises?
      ensures dest in arborescencePacking && arborescenceIndex < |arborescencePacking[dest]| &&
              WellFormed(g) && IsArborescence(g, dest, arborescencePacking[dest][arborescenceIndex]) ==>
                && (source !in NodeSet(g) <==> r.LookupRaises?)
                && (source == dest ==> r == Hops([]))
                && (source in NodeSet(g) && source != dest ==> r.Hops? && |r.hops| == 1 && HasEdge(g, source, r.hops[0]))
    {
      if dest in arborescencePacking && arborescenceIndex < |arborescencePacking[dest]| then
        var a := arborescencePacking[dest][arborescenceIndex];
        assert WellFormed(g) && IsArborescence(g, dest, a) ==>
                 && (source !in NodeSet(g) <==> Successors(a, source).LookupRaises?)
                 && (source == dest ==> Successors(a, source) == Hops([]))
                 && (source in NodeSet(g) && source != dest ==>
                       Successors(a, source).Hops? && |Successors(a, source).hops| == 1 &&
                       HasEdge(g, source, Successors(a, source).hops[0])) by {
          if WellFormed(g) && IsArborescence(g, dest, a) {
            SuccessorsInTree(g, dest, a, source);
          }
        }
        LookupAt(arborescencePacking, arborescenceIndex, source, dest)
      else
        LookupAt(arborescencePacking, arborescenceIndex, source, dest)
    }
  }

  /** Without failures, following the current tree from any tree node
      reaches the destination over topology edges, one successor at a time. */
  lemma {:induction false} FollowTree(g: Graph, d: Node, a: Arborescence, x: Node)
    requires WellFormed(g) && IsTree(g, d, a) && x in a.order
    ensures var p := PathToRoot(g, d, a, x);
            && p[0] == x && Last(p) == d && Distinct(p)
            && forall i :: 0 <= i < |p| - 1 ==> Successors(a, p[i]) == Hops([p[i + 1]]) && HasEdge(g, p[i], p[i + 1])
    decreases IndexOf(a.order, x)
  {
    if x != d {
      ParentEarlier(g, d, a, x);
      var y := a.parent[x];
      FollowTree(g, d, a, y);
      var q := PathToRoot(g, d, a, y);
      var p := PathToRoot(g, d, a, x);
      assert p == [x] + q;
      FollowAbove(g, d, a, y);
      assert x !in q;
      forall i | 0 <= i < |p| - 1
        ensures Successors(a, p[i]) == Hops([p[i + 1]]) && HasEdge(g, p[i], p[i + 1])
      {
        if i > 0 {
          assert p[i] == q[i - 1] && p[i + 1] == q[i];
        }
      }
    }
  }

  /** Every node on the walk from `y` joined the tree no later than `y`. */
  lemma {:induction false} FollowAbove(g: Graph, d: Node, a: Arborescence, y: Node)
    requires IsTree(g, d, a) && y in a.order
    ensures forall z :: z in PathToRoot(g, d, a, y) ==> z in a.order && IndexOf(a.order, z) <= IndexOf(a.order, y)
    decreases IndexOf(a.order, y)
  {
    if y != d {
      ParentEarlier(g, d, a, y);
      FollowAbove(g, d, a, a.parent[y]);
    }
  }
}
