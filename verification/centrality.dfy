/**
 * The centrality table computed once from the built graph, and the lookup with a default
 * that the prediction uses for the two selected cities.
 */
module Centrality {
  import opened Graphs
  import opened Routes

  /**
   * `nx.degree_centrality(G)`: every node's degree divided by the node count minus one;
   * a graph with at most one node gives each node 1.
   */
  function DegreeCentrality(g: Graph): (c: map<City, real>)
    ensures c.Keys == g.adj.Keys
  {
    if |g.nodes| <= 1 then map v | v in g.adj :: 1.0
    else map v | v in g.adj :: Degree(g, v) as real / (|g.nodes| - 1) as real
  }

  /** `centrality.get(city, 0)` */
  function Lookup(table: map<City, real>, city: City): (value: real)
  {
    if city in table then table[city] else 0.0
  }

  /** A node without a self-loop has at most one neighbour per other node. */
  lemma DegreeBound(g: Graph, v: City)
    requires Valid(g) && v in g.adj && v !in g.adj[v]
    ensures Degree(g, v) <= |g.nodes| - 1
  {
    DistinctCard(g.nodes);
    var others := Elems(g.nodes) - {v};
    assert g.adj[v] <= others;
    assert |others| == |g.nodes| - 1;
    SubsetCard(g.adj[v], others);
  }

  lemma {:induction false} SubsetCard(a: set<City>, b: set<City>)
    requires a <= b
    ensures |a| <= |b|
    decreases |b|
  {
    if a != {} {
      var x :| x in a;
      SubsetCard(a - {x}, b - {x});
    }
  }

  lemma RatioBounds(d: real, m: real)
    requires 0.0 <= d <= m && m > 0.0
    ensures 0.0 <= d / m <= 1.0
    ensures d > 0.0 ==> d / m > 0.0
  {
  }

  /** The centrality of a node without a self-loop lies in [0, 1]. */
  lemma CentralityBounds(g: Graph, v: City)
    requires Valid(g) && v in g.adj && v !in g.adj[v]
    ensures 0.0 <= DegreeCentrality(g)[v] <= 1.0
  {
    if |g.nodes| > 1 {
      DegreeBound(g, v);
      RatioBounds(Degree(g, v) as real, (|g.nodes| - 1) as real);
    }
  }

  /** A node with at least one neighbour has a positive centrality. */
  lemma LinkedNodePositive(g: Graph, v: City)
    requires v in g.adj && g.adj[v] != {}
    ensures Lookup(DegreeCentrality(g), v) > 0.0
  {
  }

  /**
   * Looking a city up in the table of the built graph gives exactly 0 when no record names
   * the city, and a positive value when some record does.
   */
  lemma LookupDefault(rs: seq<RouteRecord>, city: City)
    ensures city !in Departures(rs) + Arrivals(rs) ==> Lookup(DegreeCentrality(Build(rs)), city) == 0.0
    ensures city in Departures(rs) + Arrivals(rs) ==> Lookup(DegreeCentrality(Build(rs)), city) > 0.0
  {
    BuildValid(rs);
    BuildNodes(rs);
    if city in Departures(rs) + Arrivals(rs) {
      NamedCityLinked(rs, city);
      LinkedNodePositive(Build(rs), city);
    }
  }

  /** A loop-free table that names `city` has at least two cities. */
  lemma TwoCities(rs: seq<RouteRecord>, city: City)
    requires LoopFree(rs) && city in Departures(rs) + Arrivals(rs)
    ensures |Build(rs).nodes| >= 2 && city in Build(rs).adj
  {
    var g := Build(rs);
    BuildValid(rs);
    BuildNodes(rs);
    var r :| r in rs && (r.departure == city || r.arrival == city);
    var pair := {r.departure, r.arrival};
    assert pair <= Elems(g.nodes);
    assert |pair| == 2;
    DistinctCard(g.nodes);
    SubsetCard(pair, Elems(g.nodes));
  }

  /**
   * For a table without records from a city to itself, a city some record names has
   * centrality degree / (node count - 1), with at least two nodes.
   */
  lemma KnownCityCentrality(rs: seq<RouteRecord>, city: City)
    requires LoopFree(rs) && city in Departures(rs) + Arrivals(rs)
    ensures |Build(rs).nodes| >= 2 && city in Build(rs).adj
    ensures Lookup(DegreeCentrality(Build(rs)), city)
         == Degree(Build(rs), city) as real / (|Build(rs).nodes| - 1) as real
  {
    TwoCities(rs, city);
    BuiltCentralityFormula(rs, city);
  }

  lemma BuiltCentralityFormula(rs: seq<RouteRecord>, city: City)
    requires |Build(rs).nodes| >= 2 && city in Build(rs).adj
    ensures Lookup(DegreeCentrality(Build(rs)), city)
         == Degree(Build(rs), city) as real / (|Build(rs).nodes| - 1) as real
  {
  }

  /** For a table without records from a city to itself, a city some record names has centrality in (0, 1]. */
  lemma KnownCityBounds(rs: seq<RouteRecord>, city: City)
    requires LoopFree(rs) && city in Departures(rs) + Arrivals(rs)
    ensures 0.0 < Lookup(DegreeCentrality(Build(rs)), city) <= 1.0
  {
    TwoCities(rs, city);
    BuildValid(rs);
    NoSelfLoops(rs, city);
    CentralityBounds(Build(rs), city);
    LookupDefault(rs, city);
  }
}
