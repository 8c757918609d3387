/** The undirected networkx `Graph` the network keeps as its topology, with
    the few operations the simulator performs on it: adding a node, adding
    an edge with its `weight` and `capacity`, and the copies with a node or
    an edge removed that the policies and the metrics compute on. */
module Topology {
  import opened Common

  /** The attribute dict of an edge. */
  datatype EdgeData = EdgeData(weight: int, capacity: int)

  /** Nodes in insertion order, each node's neighbours in insertion order
      (networkx's iteration order), and each edge's attributes under both
      orientations (networkx shares one dict between `G[u][v]` and `G[v][u]`). */
  datatype Graph = Graph(nodes: seq<Node>, adj: map<Node, seq<Node>>, data: map<Edge, EdgeData>)

  const EmptyGraph: Graph := Graph([], map[], map[])

  ghost predicate WellFormed(g: Graph)
  {
    && Distinct(g.nodes)
    && (forall x :: x in g.adj <==> x in g.nodes)
    && (forall u :: u in g.adj ==> Distinct(g.adj[u]))
    && (forall u, v :: u in g.adj && v in g.adj[u] ==> v in g.adj && u in g.adj[v] && (u, v) in g.data)
    && (forall u, v :: (u, v) in g.data ==> u in g.adj && v in g.adj[u] && g.data[(u, v)] == g.data[(v, u)])
  }

  function NodeSet(g: Graph): set<Node>
  {
    g.adj.Keys
  }

  /** The node list holds each node once. */
  lemma NodesListed(g: Graph)
    requires WellFormed(g)
    ensures Elements(g.nodes) == NodeSet(g)
    ensures |g.nodes| == |NodeSet(g)|
  {
    assert forall x :: x in Elements(g.nodes) <==> x in NodeSet(g);
    DistinctCard(g.nodes);
  }

  /** `g.neighbors(s)`; networkx raises for a node that is not in the graph,
      which no caller in the simulator does (the model answers `[]`). */
  function Neighbors(g: Graph, s: Node): seq<Node>
  {
    if s in g.adj then g.adj[s] else []
  }

  /** `g.has_edge(u, v)`. */
  predicate HasEdge(g: Graph, u: Node, v: Node)
  {
    u in g.adj && v in g.adj[u]
  }

  /** `g.degree(x)`: the number of neighbours, a self-loop counting twice. */
  function Degree(g: Graph, x: Node): nat
  {
    |Neighbors(g, x)| + if HasEdge(g, x, x) then 1 else 0
  }

  /** In a well-formed graph the degree counts each incident edge once and a
      self-loop twice: the neighbour list holds each neighbour exactly once. */
  lemma DegreeCountsEdges(g: Graph, x: Node)
    requires WellFormed(g)
    ensures forall y :: y in Elements(Neighbors(g, x)) <==> HasEdge(g, x, y)
    ensures Degree(g, x) == |Elements(Neighbors(g, x))| + if HasEdge(g, x, x) then 1 else 0
  {
    if x in g.adj {
      DistinctCard(g.adj[x]);
    }
  }

  /** `s` with every occurrence of `x` dropped, order kept. */
  function Without(s: seq<Node>, x: Node): seq<Node>
  {
    if s == [] then []
    else
      var rest := Without(s[1..], x);
      if s[0] == x then rest else [s[0]] + rest
  }

  /** Dropping `x` keeps every other element, keeps no `x`, and keeps a
      duplicate-free list duplicate-free. */
  lemma {:induction false} WithoutFacts(s: seq<Node>, x: Node)
    ensures forall y :: y in Without(s, x) <==> y in s && y != x
    ensures Distinct(s) ==> Distinct(Without(s, x))
  {
    if s != [] {
      WithoutFacts(s[1..], x);
      var rest := Without(s[1..], x);
      if Distinct(s) && s[0] != x {
        forall j | 0 <= j < |s[1..]| ensures s[1..][j] != s[0] {
          assert s[1..][j] == s[j + 1];
        }
        assert Distinct(s[1..]) by {
          forall i, j | 0 <= i < j < |s[1..]| ensures s[1..][i] != s[1..][j] {
            assert s[1..][i] == s[i + 1] && s[1..][j] == s[j + 1];
          }
        }
        assert s[0] !in rest;
        var w := [s[0]] + rest;
        forall i, j | 0 <= i < j < |w| ensures w[i] != w[j] {
          assert w[j] == rest[j - 1] && rest[j - 1] in rest;
          if i > 0 {
            assert w[i] == rest[i - 1];
          }
        }
      } else if Distinct(s) {
        assert Distinct(s[1..]) by {
          forall i, j | 0 <= i < j < |s[1..]| ensures s[1..][i] != s[1..][j] {
            assert s[1..][i] == s[i + 1] && s[1..][j] == s[j + 1];
          }
        }
      }
    }
  }

  /** `g.add_node(x)`: a new node goes last; an existing node is left as it is. */
  function AddNode(g: Graph, x: Node): (r: Graph)
    requires WellFormed(g)
    ensures WellFormed(r)
    ensures NodeSet(r) == NodeSet(g) + {x}
    ensures r.nodes == if x in g.adj then g.nodes else g.nodes + [x]
    ensures r.data == g.data
    ensures forall u :: u in g.adj ==> u in r.adj && r.adj[u] == g.adj[u]
    ensures forall a, b :: HasEdge(r, a, b) <==> HasEdge(g, a, b)
  {
    if x in g.adj then g
    else Graph(g.nodes + [x], g.adj[x := []], g.data)
  }

  /** Appends `x` to an adjacency list unless it is already there. */
  function Attach(s: seq<Node>, x: Node): (r: seq<Node>)
    ensures forall y :: y in r <==> y in s || y == x
    ensures Distinct(s) ==> Distinct(r)
  {
    if x in s then s else s + [x]
  }

  /** `g.add_edge(u, v, weight=w, capacity=c)`: both endpoints are added as
      nodes if missing, the edge is added if missing, and its attributes are
      set to `d` (an existing edge keeps its place in the adjacency order). */
  function AddEdge(g: Graph, u: Node, v: Node, d: EdgeData): (r: Graph)
    requires WellFormed(g)
    ensures WellFormed(r)
    ensures NodeSet(r) == NodeSet(g) + {u, v}
    ensures r.nodes == AddNode(AddNode(g, u), v).nodes
    ensures forall a, b :: HasEdge(r, a, b) <==> HasEdge(g, a, b) || (a == u && b == v) || (a == v && b == u)
    ensures (u, v) in r.data && r.data[(u, v)] == d && (v, u) in r.data && r.data[(v, u)] == d
    ensures forall a, b :: (a, b) in g.data && (a, b) != (u, v) && (a, b) != (v, u) ==>
              (a, b) in r.data && r.data[(a, b)] == g.data[(a, b)]
  {
    AddEdgeShape(g, u, v, d);
    AddEdgeLinks(g, u, v, d);
    Link(AddNode(AddNode(g, u), v), u, v, d)
  }

  lemma AddEdgeShape(g: Graph, u: Node, v: Node, d: EdgeData)
    requires WellFormed(g)
    ensures var r := Link(AddNode(AddNode(g, u), v), u, v, d);
            WellFormed(r) && NodeSet(r) == NodeSet(g) + {u, v} && r.nodes == AddNode(AddNode(g, u), v).nodes
  {
    LinkWellFormed(AddNode(AddNode(g, u), v), u, v, d);
  }

  lemma AddEdgeLinks(g: Graph, u: Node, v: Node, d: EdgeData)
    requires WellFormed(g)
    ensures var r := Link(AddNode(AddNode(g, u), v), u, v, d);
            && (forall a, b :: HasEdge(r, a, b) <==> HasEdge(g, a, b) || (a == u && b == v) || (a == v && b == u))
            && (u, v) in r.data && r.data[(u, v)] == d && (v, u) in r.data && r.data[(v, u)] == d
            && (forall a, b :: (a, b) in g.data && (a, b) != (u, v) && (a, b) != (v, u) ==>
                  (a, b) in r.data && r.data[(a, b)] == g.data[(a, b)])
  {
    var g1 := AddNode(AddNode(g, u), v);
    assert g1.data == g.data;
  }

  /** The edge-adding step of `AddEdge`, once both endpoints are nodes. */
  function Link(g: Graph, u: Node, v: Node, d: EdgeData): (r: Graph)
    requires u in g.adj && v in g.adj
    ensures r.nodes == g.nodes && r.adj.Keys == g.adj.Keys
    ensures forall a, b :: HasEdge(r, a, b) <==> HasEdge(g, a, b) || (a == u && b == v) || (a == v && b == u)
    ensures r.data == g.data[(u, v) := d][(v, u) := d]
  {
    var adj1 := g.adj[u := Attach(g.adj[u], v)];
    var adj2 := adj1[v := Attach(adj1[v], u)];
    Graph(g.nodes, adj2, g.data[(u, v) := d][(v, u) := d])
  }

  lemma LinkWellFormed(g: Graph, u: Node, v: Node, d: EdgeData)
    requires WellFormed(g) && u in g.adj && v in g.adj
    ensures WellFormed(Link(g, u, v, d))
  {
    var r := Link(g, u, v, d);
    assert forall x :: x in r.adj ==> Distinct(r.adj[x]);
    forall a, b | a in r.adj && b in r.adj[a]
      ensures b in r.adj && a in r.adj[b] && (a, b) in r.data
    {
      assert HasEdge(r, a, b);
      assert HasEdge(r, b, a);
    }
    forall a, b | (a, b) in r.data
      ensures a in r.adj && b in r.adj[a] && r.data[(a, b)] == r.data[(b, a)]
    {
      if (a, b) != (u, v) && (a, b) != (v, u) {
        assert (a, b) in g.data;
        assert HasEdge(g, a, b);
      }
    }
  }

  /** `g.remove_node(s)` on a copy: the node, its edges and their attributes go. */
  function RemoveNode(g: Graph, s: Node): (r: Graph)
    ensures WellFormed(g) ==> WellFormed(r)
    ensures NodeSet(r) == NodeSet(g) - {s}
    ensures forall a, b :: HasEdge(r, a, b) <==> HasEdge(g, a, b) && a != s && b != s
  {
    var r := Cut(g, s);
    CutEdges(g, s);
    assert WellFormed(g) ==> WellFormed(r) by {
      if WellFormed(g) {
        CutWellFormed(g, s);
      }
    }
    r
  }

  /** The copy of `g` without `s`, before anything is known of `g`. */
  function Cut(g: Graph, s: Node): (r: Graph)
    ensures r.nodes == Without(g.nodes, s)
    ensures forall x :: x in r.adj <==> x in g.adj && x != s
    ensures forall x :: x in r.adj ==> r.adj[x] == Without(g.adj[x], s)
    ensures forall a, b :: (a, b) in r.data <==> (a, b) in g.data && a != s && b != s
    ensures forall a, b :: (a, b) in r.data ==> r.data[(a, b)] == g.data[(a, b)]
  {
    var nodes := Without(g.nodes, s);
    var adj := map x | x in g.adj && x != s :: Without(g.adj[x], s);
    var data := map e | e in g.data && e.0 != s && e.1 != s :: g.data[e];
    Graph(nodes, adj, data)
  }

  lemma CutEdges(g: Graph, s: Node)
    ensures forall a, b :: HasEdge(Cut(g, s), a, b) <==> HasEdge(g, a, b) && a != s && b != s
  {
    var r := Cut(g, s);
    forall a, b ensures HasEdge(r, a, b) <==> HasEdge(g, a, b) && a != s && b != s {
      if a in g.adj {
        WithoutFacts(g.adj[a], s);
      }
    }
  }

  lemma CutWellFormed(g: Graph, s: Node)
    requires WellFormed(g)
    ensures WellFormed(Cut(g, s))
  {
    var r := Cut(g, s);
    WithoutFacts(g.nodes, s);
    forall x | x in r.adj ensures Distinct(r.adj[x]) {
      WithoutFacts(g.adj[x], s);
    }
    CutEdges(g, s);
    forall a, b | a in r.adj && b in r.adj[a]
      ensures b in r.adj && a in r.adj[b] && (a, b) in r.data
    {
      assert HasEdge(r, a, b);
      assert HasEdge(g, a, b) && HasEdge(g, b, a) && (a, b) in g.data;
      assert HasEdge(r, b, a);
    }
    forall a, b | (a, b) in r.data
      ensures a in r.adj && b in r.adj[a] && r.data[(a, b)] == r.data[(b, a)]
    {
      assert HasEdge(g, a, b);
      assert HasEdge(r, a, b);
      assert (b, a) in g.data;
    }
  }

  /** `g.remove_edge(u, v)` on an existing edge. */
  function RemoveEdge(g: Graph, u: Node, v: Node): (r: Graph)
    requires WellFormed(g) && HasEdge(g, u, v)
    ensures WellFormed(r)
    ensures NodeSet(r) == NodeSet(g)
    ensures forall a, b :: HasEdge(r, a, b) <==> HasEdge(g, a, b) && !(a == u && b == v) && !(a == v && b == u)
  {
    var r := Unlink(g, u, v);
    UnlinkWellFormed(g, u, v);
    r
  }

  /** The edge-removing step of `RemoveEdge`. */
  function Unlink(g: Graph, u: Node, v: Node): (r: Graph)
    requires u in g.adj && v in g.adj
    ensures r.nodes == g.nodes && r.adj.Keys == g.adj.Keys
    ensures forall x :: x in r.adj && Distinct(g.adj[x]) ==> Distinct(r.adj[x])
    ensures forall a, b :: HasEdge(r, a, b) <==> HasEdge(g, a, b) && !(a == u && b == v) && !(a == v && b == u)
    ensures r.data == g.data - {(u, v), (v, u)}
  {
    var adj1 := g.adj[u := Without(g.adj[u], v)];
    WithoutFacts(g.adj[u], v);
    WithoutFacts(adj1[v], u);
    var adj2 := adj1[v := Without(adj1[v], u)];
    Graph(g.nodes, adj2, g.data - {(u, v), (v, u)})
  }

  lemma UnlinkWellFormed(g: Graph, u: Node, v: Node)
    requires WellFormed(g) && u in g.adj && v in g.adj
    ensures WellFormed(Unlink(g, u, v))
  {
    UnlinkSymmetric(g, u, v);
    UnlinkData(g, u, v);
  }

  lemma UnlinkSymmetric(g: Graph, u: Node, v: Node)
    requires WellFormed(g) && u in g.adj && v in g.adj
    ensures var r := Unlink(g, u, v);
            forall a, b :: a in r.adj && b in r.adj[a] ==> b in r.adj && a in r.adj[b] && (a, b) in r.data
  {
    var r := Unlink(g, u, v);
    forall a, b | a in r.adj && b in r.adj[a]
      ensures b in r.adj && a in r.adj[b] && (a, b) in r.data
    {
      assert HasEdge(r, a, b);
      assert HasEdge(g, b, a);
    }
  }

  lemma UnlinkData(g: Graph, u: Node, v: Node)
    requires WellFormed(g) && u in g.adj && v in g.adj
    ensures var r := Unlink(g, u, v);
            forall a, b :: (a, b) in r.data ==> a in r.adj && b in r.adj[a] && r.data[(a, b)] == r.data[(b, a)]
  {
    var r := Unlink(g, u, v);
    forall a, b | (a, b) in r.data
      ensures a in r.adj && b in r.adj[a] && r.data[(a, b)] == r.data[(b, a)]
    {
      assert HasEdge(g, a, b);
      assert HasEdge(r, a, b);
    }
  }

  /** The attributes of an input edge, either of which may be missing. */
  datatype Attributes = Attributes(weight: Option<int>, capacity: Option<int>)

  /** A networkx graph handed to `Network.from_networkx_graph`: its nodes
      and its edges with their attribute dicts, in iteration order. */
  datatype InputGraph = InputGraph(nodes: seq<Node>, edges: seq<(Node, Node, Attributes)>)

  /** What networkx guarantees of such a graph: distinct nodes, edges between
      nodes, and no undirected pair listed twice. */
  predicate InputWellFormed(h: InputGraph)
  {
    && Distinct(h.nodes)
    && (forall i :: 0 <= i < |h.edges| ==> h.edges[i].0 in h.nodes && h.edges[i].1 in h.nodes)
    && (forall i, j :: 0 <= i < j < |h.edges| ==>
          (h.edges[i].0, h.edges[i].1) != (h.edges[j].0, h.edges[j].1) &&
          (h.edges[i].0, h.edges[i].1) != (h.edges[j].1, h.edges[j].0))
  }
}
