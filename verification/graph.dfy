/**
 * The undirected simple graph the analyser builds from its route table, modelled the
 * way networkx's `Graph` stores it: the nodes in insertion order and, for every node,
 * the set of its neighbours. `AddEdge` is `Graph.add_edge` without the edge attribute.
 */
module Graphs {

  /** A city name as it appears in the Departure and Arrival columns. */
  type City = string

  datatype Graph = Graph(nodes: seq<City>, adj: map<City, set<City>>)

  /** `nx.Graph()`: no nodes, no edges. */
  const Empty: Graph := Graph([], map[])

  function Elems(s: seq<City>): set<City>
  {
    set x | x in s
  }

  predicate Distinct(s: seq<City>)
  {
    forall i, j | 0 <= i < j < |s| :: s[i] != s[j]
  }

  /** The representation invariant: every node once, the adjacency keyed by exactly the nodes, and symmetric. */
  ghost predicate Valid(g: Graph)
  {
    && Distinct(g.nodes)
    && g.adj.Keys == Elems(g.nodes)
    && Symmetric(g.adj)
  }

  ghost predicate Symmetric(adj: map<City, set<City>>)
  {
    forall u, v | u in adj && v in adj[u] :: v in adj && u in adj[v]
  }

  /** The edges as unordered pairs; a self-loop on `v` is the pair `{v}`. */
  ghost function Edges(g: Graph): (es: set<set<City>>)
  {
    set u, v | u in g.adj && v in g.adj[u] :: {u, v}
  }

  predicate HasEdge(g: Graph, u: City, v: City)
  {
    u in g.adj && v in g.adj[u]
  }

  /** Creates `v` with no neighbours unless it is already a node. */
  function AddNode(g: Graph, v: City): (r: Graph)
    ensures v in r.adj && r.adj[v] == (if v in g.adj then g.adj[v] else {})
    ensures forall x | x in g.adj :: x in r.adj && r.adj[x] == g.adj[x]
  {
    if v in g.adj then g else Graph(g.nodes + [v], g.adj[v := {}])
  }

  /** `G.add_edge(u, v)`: creates `u` and then `v` if missing, then makes each a neighbour of the other. */
  function AddEdge(g: Graph, u: City, v: City): (r: Graph)
  {
    var g1 := AddNode(AddNode(g, u), v);
    Graph(g1.nodes, Link(g1.adj, u, v))
  }

  /** Records `v` as a neighbour of `u` and then `u` as a neighbour of `v`. */
  function Link(adj: map<City, set<City>>, u: City, v: City): (r: map<City, set<City>>)
    requires u in adj && v in adj
    ensures r.Keys == adj.Keys
  {
    var a1 := adj[u := adj[u] + {v}];
    a1[v := a1[v] + {u}]
  }

  /** networkx's degree: the number of neighbours, a self-loop counted twice. */
  function Degree(g: Graph, v: City): (d: nat)
    requires v in g.adj
  {
    |g.adj[v]| + if v in g.adj[v] then 1 else 0
  }

  function DegreeSum(g: Graph, ns: seq<City>): (total: nat)
    requires forall x | x in ns :: x in g.adj
  {
    if ns == [] then 0 else DegreeSum(g, ns[..|ns| - 1]) + Degree(g, ns[|ns| - 1])
  }

  /** A sequence without repetitions has as many distinct elements as positions. */
  lemma {:induction false} DistinctCard(s: seq<City>)
    requires Distinct(s)
    ensures |Elems(s)| == |s|
  {
    if s != [] {
      var p := s[..|s| - 1];
      assert Distinct(p);
      DistinctCard(p);
      assert Elems(s) == Elems(p) + {s[|s| - 1]} by {
        assert s == p + [s[|s| - 1]];
      }
      assert s[|s| - 1] !in Elems(p);
    }
  }

  lemma PairMembers(a: City, b: City, u: City, v: City)
    requires {a, b} == {u, v}
    ensures (a == u && b == v) || (a == v && b == u)
  {
  }

  /** The degree sum over `ns` reads only the neighbour sets of the nodes in `ns`. */
  lemma {:induction false} DegreeSumFrame(g1: Graph, g2: Graph, ns: seq<City>)
    requires forall x | x in ns :: x in g1.adj && x in g2.adj && g1.adj[x] == g2.adj[x]
    ensures DegreeSum(g1, ns) == DegreeSum(g2, ns)
  {
    if ns != [] {
      DegreeSumFrame(g1, g2, ns[..|ns| - 1]);
    }
  }

  /** Raising one node's degree by `k` raises the degree sum over a repetition-free `ns` by `k`. */
  lemma {:induction false} DegreeSumBump(g1: Graph, g2: Graph, ns: seq<City>, w: City, k: nat)
    requires Distinct(ns)
    requires forall x | x in ns :: x in g1.adj && x in g2.adj
    requires forall x | x in ns && x != w :: Degree(g2, x) == Degree(g1, x)
    requires w in ns && w in g1.adj && w in g2.adj && Degree(g2, w) == Degree(g1, w) + k
    ensures DegreeSum(g2, ns) == DegreeSum(g1, ns) + k
  {
    var p := ns[..|ns| - 1];
    var last := ns[|ns| - 1];
    assert Distinct(p);
    if last == w {
      assert w !in p;
      DegreeSumUnchanged(g1, g2, p);
    } else {
      assert w in p by {
        var i :| 0 <= i < |ns| && ns[i] == w;
        assert i < |ns| - 1;
        assert p[i] == w;
      }
      DegreeSumBump(g1, g2, p, w, k);
    }
  }

  lemma {:induction false} DegreeSumUnchanged(g1: Graph, g2: Graph, ns: seq<City>)
    requires forall x | x in ns :: x in g1.adj && x in g2.adj && Degree(g2, x) == Degree(g1, x)
    ensures DegreeSum(g2, ns) == DegreeSum(g1, ns)
  {
    if ns != [] {
      DegreeSumUnchanged(g1, g2, ns[..|ns| - 1]);
    }
  }

  lemma AddNodeValid(g: Graph, v: City)
    requires Valid(g)
    ensures Valid(AddNode(g, v))
    ensures Elems(AddNode(g, v).nodes) == Elems(g.nodes) + {v}
  {
  }

  lemma AddNodeSum(g: Graph, v: City)
    requires Valid(g)
    ensures DegreeSum(AddNode(g, v), AddNode(g, v).nodes) == DegreeSum(g, g.nodes)
  {
    var r := AddNode(g, v);
    if v !in g.adj {
      AddNodeValid(g, v);
      var ns := r.nodes;
      assert ns[..|ns| - 1] == g.nodes;
      assert ns[|ns| - 1] == v;
      assert Degree(r, v) == 0;
      assert DegreeSum(r, ns) == DegreeSum(r, g.nodes) + Degree(r, v);
      DegreeSumFrame(g, r, g.nodes);
    }
  }

  lemma AddNodeEdges(g: Graph, v: City)
    requires Valid(g)
    ensures Edges(AddNode(g, v)) == Edges(g)
  {
  }

  /** `add_edge(u, v)` keeps the invariant, adds exactly `u` and `v` to the node set, and links them both ways. */
  lemma LinkSymmetric(adj: map<City, set<City>>, u: City, v: City)
    requires u in adj && v in adj && Symmetric(adj)
    ensures Symmetric(Link(adj, u, v))
    ensures v in Link(adj, u, v)[u] && u in Link(adj, u, v)[v]
  {
  }

  lemma AddEdgeValid(g: Graph, u: City, v: City)
    requires Valid(g)
    ensures Valid(AddEdge(g, u, v))
    ensures Elems(AddEdge(g, u, v).nodes) == Elems(g.nodes) + {u, v}
    ensures HasEdge(AddEdge(g, u, v), u, v) && HasEdge(AddEdge(g, u, v), v, u)
  {
    var g0 := AddNode(g, u);
    AddNodeValid(g, u);
    var g1 := AddNode(g0, v);
    AddNodeValid(g0, v);
    LinkSymmetric(g1.adj, u, v);
  }

  lemma LinkEdges(ns: seq<City>, adj: map<City, set<City>>, u: City, v: City)
    requires u in adj && v in adj
    ensures Edges(Graph(ns, Link(adj, u, v))) == Edges(Graph(ns, adj)) + {{u, v}}
  {
    var r := Link(adj, u, v);
    forall e | e in Edges(Graph(ns, r)) ensures e in Edges(Graph(ns, adj)) + {{u, v}} {
      var a, b :| a in r && b in r[a] && e == {a, b};
      if b in adj[a] {
        assert e in Edges(Graph(ns, adj));
      } else if a == u && b == v {
        assert e == {u, v};
      } else {
        assert a == v && b == u;
        assert e == {u, v};
      }
    }
    assert v in r[u];
    assert {u, v} in Edges(Graph(ns, r));
  }

  /** `add_edge(u, v)` adds exactly the unordered pair `{u, v}` to the edge set. */
  lemma AddEdgeEdges(g: Graph, u: City, v: City)
    requires Valid(g)
    ensures Edges(AddEdge(g, u, v)) == Edges(g) + {{u, v}}
  {
    var g0 := AddNode(g, u);
    AddNodeValid(g, u);
    AddNodeEdges(g, u);
    var g1 := AddNode(g0, v);
    AddNodeEdges(g0, v);
    LinkEdges(g1.nodes, g1.adj, u, v);
    assert Graph(g1.nodes, g1.adj) == g1;
  }

  /** Re-adding an existing pair, in either orientation, leaves the graph exactly as it was. */
  lemma AddEdgeExisting(g: Graph, u: City, v: City)
    requires Valid(g) && HasEdge(g, u, v)
    ensures AddEdge(g, u, v) == g
    ensures AddEdge(g, v, u) == g
  {
    assert g.adj[u] + {v} == g.adj[u];
    assert g.adj[v] + {u} == g.adj[v];
    assert g.adj[u := g.adj[u]][v := g.adj[v]] == g.adj;
  }

  /** A pair that is not linked in the adjacency is not an edge, in either orientation. */
  lemma NewPairNotEdge(g: Graph, u: City, v: City)
    requires Valid(g) && !HasEdge(g, u, v)
    ensures {u, v} !in Edges(g)
  {
  }

  lemma LinkDegreeSum(ns: seq<City>, adj: map<City, set<City>>, u: City, v: City)
    requires Distinct(ns) && forall x | x in ns :: x in adj
    requires u in ns && v in ns && v !in adj[u] && u !in adj[v]
    ensures DegreeSum(Graph(ns, Link(adj, u, v)), ns) == DegreeSum(Graph(ns, adj), ns) + 2
  {
    var g1 := Graph(ns, adj);
    var gm := Graph(ns, adj[u := adj[u] + {v}]);
    var r := Graph(ns, Link(adj, u, v));
    if u == v {
      assert r.adj == gm.adj;
      assert Degree(r, u) == Degree(g1, u) + 2;
      DegreeSumBump(g1, r, ns, u, 2);
    } else {
      assert Degree(gm, u) == Degree(g1, u) + 1;
      DegreeSumBump(g1, gm, ns, u, 1);
      assert Degree(r, v) == Degree(gm, v) + 1;
      DegreeSumBump(gm, r, ns, v, 1);
    }
  }

  /** Linking two nodes that were not linked adds two to the degree sum (one at each end, or two at a self-loop). */
  lemma AddEdgeDegreeSum(g: Graph, u: City, v: City)
    requires Valid(g) && !HasEdge(g, u, v)
    ensures Valid(AddEdge(g, u, v))
    ensures DegreeSum(AddEdge(g, u, v), AddEdge(g, u, v).nodes) == DegreeSum(g, g.nodes) + 2
  {
    AddEdgeValid(g, u, v);
    var g0 := AddNode(g, u);
    AddNodeValid(g, u);
    AddNodeSum(g, u);
    var g1 := AddNode(g0, v);
    AddNodeValid(g0, v);
    AddNodeSum(g0, v);
    assert v !in g1.adj[u];
    assert u !in g1.adj[v];
    assert u in Elems(g1.nodes) && v in Elems(g1.nodes);
    LinkDegreeSum(g1.nodes, g1.adj, u, v);
    assert Graph(g1.nodes, g1.adj) == g1;
  }

  /** `add_edge` preserves the handshake identity: the degree sum is twice the number of distinct edges. */
  lemma AddEdgeHandshake(g: Graph, u: City, v: City)
    requires Valid(g) && DegreeSum(g, g.nodes) == 2 * |Edges(g)|
    ensures Valid(AddEdge(g, u, v))
    ensures DegreeSum(AddEdge(g, u, v), AddEdge(g, u, v).nodes) == 2 * |Edges(AddEdge(g, u, v))|
  {
    AddEdgeValid(g, u, v);
    if HasEdge(g, u, v) {
      AddEdgeExisting(g, u, v);
    } else {
      AddEdgeDegreeSum(g, u, v);
      AddEdgeEdges(g, u, v);
      NewPairNotEdge(g, u, v);
    }
  }
}
