/**
 * The route table and the graph built from it once at start-up: one `add_edge` call
 * per record, Departure to Arrival, in table order.
 */
module Routes {
  import opened Graphs

  /** One row of the route table: Departure, Arrival, Distance (km) and Operator. */
  datatype RouteRecord = RouteRecord(departure: City, arrival: City, distance: real, operator: string)

  /** `set(data['Departure'])` */
  function Departures(rs: seq<RouteRecord>): set<City>
  {
    set r | r in rs :: r.departure
  }

  /** `set(data['Arrival'])` */
  function Arrivals(rs: seq<RouteRecord>): set<City>
  {
    set r | r in rs :: r.arrival
  }

  /** The city pairs the records name, each as an unordered pair. */
  ghost function RoutePairs(rs: seq<RouteRecord>): set<set<City>>
  {
    set r | r in rs :: {r.departure, r.arrival}
  }

  /** No record departs from and arrives at the same city. */
  predicate LoopFree(rs: seq<RouteRecord>)
  {
    forall r | r in rs :: r.departure != r.arrival
  }

  /** The graph once the build loop has added the edge of every record of `rs`, in order. */
  function Build(rs: seq<RouteRecord>): (g: Graph)
  {
    if rs == [] then Empty
    else
      var r := rs[|rs| - 1];
      AddEdge(Build(rs[..|rs| - 1]), r.departure, r.arrival)
  }

  lemma LastSplit(rs: seq<RouteRecord>)
    requires rs != []
    ensures Departures(rs) == Departures(rs[..|rs| - 1]) + {rs[|rs| - 1].departure}
    ensures Arrivals(rs) == Arrivals(rs[..|rs| - 1]) + {rs[|rs| - 1].arrival}
    ensures RoutePairs(rs) == RoutePairs(rs[..|rs| - 1]) + {{rs[|rs| - 1].departure, rs[|rs| - 1].arrival}}
  {
  }

  /** The built graph satisfies the representation invariant. */
  lemma {:induction false} BuildValid(rs: seq<RouteRecord>)
    ensures Valid(Build(rs))
  {
    if rs != [] {
      BuildValid(rs[..|rs| - 1]);
      AddEdgeValid(Build(rs[..|rs| - 1]), rs[|rs| - 1].departure, rs[|rs| - 1].arrival);
    }
  }

  /** The nodes of the built graph are exactly the cities named as a Departure or an Arrival. */
  lemma {:induction false} BuildNodes(rs: seq<RouteRecord>)
    ensures Elems(Build(rs).nodes) == Departures(rs) + Arrivals(rs)
  {
    if rs != [] {
      var p := rs[..|rs| - 1];
      BuildNodes(p);
      BuildValid(p);
      AddEdgeValid(Build(p), rs[|rs| - 1].departure, rs[|rs| - 1].arrival);
      LastSplit(rs);
    }
  }

  /** Every record's pair is an edge of the built graph, and there are no other edges. */
  lemma {:induction false} BuildEdges(rs: seq<RouteRecord>)
    ensures Edges(Build(rs)) == RoutePairs(rs)
  {
    if rs != [] {
      var p := rs[..|rs| - 1];
      BuildEdges(p);
      BuildValid(p);
      AddEdgeEdges(Build(p), rs[|rs| - 1].departure, rs[|rs| - 1].arrival);
      LastSplit(rs);
    }
  }

  /** The handshake identity: summed over all nodes, networkx's degree is twice the number of distinct edges. */
  lemma {:induction false} Handshake(rs: seq<RouteRecord>)
    ensures Valid(Build(rs))
    ensures DegreeSum(Build(rs), Build(rs).nodes) == 2 * |Edges(Build(rs))|
  {
    BuildValid(rs);
    if rs == [] {
      assert Edges(Empty) == {};
    } else {
      var p := rs[..|rs| - 1];
      Handshake(p);
      BuildValid(p);
      AddEdgeHandshake(Build(p), rs[|rs| - 1].departure, rs[|rs| - 1].arrival);
    }
  }

  /** There are never more distinct edges than records. */
  lemma {:induction false} EdgeCountBound(rs: seq<RouteRecord>)
    ensures |Edges(Build(rs))| <= |rs|
  {
    BuildEdges(rs);
    PairCountBound(rs);
  }

  lemma {:induction false} PairCountBound(rs: seq<RouteRecord>)
    ensures |RoutePairs(rs)| <= |rs|
  {
    if rs != [] {
      PairCountBound(rs[..|rs| - 1]);
      LastSplit(rs);
    }
  }

  /** An edge recorded as an unordered pair is linked in the adjacency in both orientations. */
  lemma EdgeLinked(g: Graph, u: City, v: City)
    requires Valid(g) && {u, v} in Edges(g)
    ensures HasEdge(g, u, v) && HasEdge(g, v, u)
  {
  }

  /** A record whose city pair, in either orientation, is already in the table adds nothing to the graph. */
  lemma DuplicateRecord(rs: seq<RouteRecord>, r: RouteRecord)
    requires {r.departure, r.arrival} in RoutePairs(rs)
    ensures Build(rs + [r]) == Build(rs)
  {
    BuildValid(rs);
    BuildEdges(rs);
    EdgeLinked(Build(rs), r.departure, r.arrival);
    AddEdgeExisting(Build(rs), r.departure, r.arrival);
    assert (rs + [r])[..|rs|] == rs;
  }

  /** Building a table with one more record adds that record's edge to the graph built so far. */
  lemma BuildAppend(s: seq<RouteRecord>, x: RouteRecord)
    ensures Build(s + [x]) == AddEdge(Build(s), x.departure, x.arrival)
  {
    assert (s + [x])[..|s|] == s;
  }

  /** A record whose city pair already occurs earlier in the table adds nothing, wherever it stands. */
  lemma {:induction false} DuplicateRecordAnywhere(p: seq<RouteRecord>, r: RouteRecord, q: seq<RouteRecord>)
    requires {r.departure, r.arrival} in RoutePairs(p)
    ensures Build(p + [r] + q) == Build(p + q)
    decreases |q|
  {
    if q == [] {
      assert p + [r] + q == p + [r] && p + q == p;
      DuplicateRecord(p, r);
    } else {
      var q', x := q[..|q| - 1], q[|q| - 1];
      assert q == q' + [x];
      DuplicateRecordAnywhere(p, r, q');
      assert p + [r] + q == (p + [r] + q') + [x];
      assert p + q == (p + q') + [x];
      BuildAppend(p + [r] + q', x);
      BuildAppend(p + q', x);
    }
  }

  /** Without records from a city to itself the built graph has no self-loops. */
  lemma NoSelfLoops(rs: seq<RouteRecord>, v: City)
    requires LoopFree(rs) && v in Build(rs).adj
    ensures v !in Build(rs).adj[v]
  {
  }

  /** Every city named in the table has at least one neighbour in the built graph. */
  lemma NamedCityLinked(rs: seq<RouteRecord>, c: City)
    requires c in Departures(rs) + Arrivals(rs)
    ensures c in Build(rs).adj && Build(rs).adj[c] != {}
  {
  }

  /** A two-record table: Mumbai-Pune (150 km) and Pune-Nashik (210 km). */
  const ExampleRoutes: seq<RouteRecord> :=
    [RouteRecord("Mumbai", "Pune", 150.0, "op"), RouteRecord("Pune", "Nashik", 210.0, "op")]

  lemma ExampleFirstEdge()
    ensures Build(ExampleRoutes[..1]) == Graph(["Mumbai", "Pune"], map["Mumbai" := {"Pune"}, "Pune" := {"Mumbai"}])
  {
    var r1 := ExampleRoutes[0];
    assert ExampleRoutes[..1] == [r1];
    assert [r1][..0] == [];
    assert Build([r1][..0]) == Empty;
    var g1 := Build([r1]);
    assert g1 == AddEdge(Empty, "Mumbai", "Pune");
    var e1 := AddNode(AddNode(Empty, "Mumbai"), "Pune");
    assert e1 == Graph(["Mumbai", "Pune"], map["Mumbai" := {}, "Pune" := {}]);
    assert g1 == Graph(e1.nodes, Link(e1.adj, "Mumbai", "Pune"));
    assert {} + {"Pune"} == {"Pune"} && {} + {"Mumbai"} == {"Mumbai"};
    assert e1.adj["Mumbai" := {"Pune"}]["Pune" := {"Mumbai"}] == map["Mumbai" := {"Pune"}, "Pune" := {"Mumbai"}];
  }

  lemma ExampleGraph()
    ensures Build(ExampleRoutes) == Graph(["Mumbai", "Pune", "Nashik"],
      map["Mumbai" := {"Pune"}, "Pune" := {"Mumbai", "Nashik"}, "Nashik" := {"Pune"}])
  {
    ExampleFirstEdge();
    var g1 := Build(ExampleRoutes[..1]);
    var g := Build(ExampleRoutes);
    assert g == AddEdge(g1, "Pune", "Nashik");
    assert "Pune" != "Nashik" && "Mumbai" != "Nashik";
    var e2 := AddNode(AddNode(g1, "Pune"), "Nashik");
    assert e2 == Graph(["Mumbai", "Pune", "Nashik"], map["Mumbai" := {"Pune"}, "Pune" := {"Mumbai"}, "Nashik" := {}]);
    assert g == Graph(e2.nodes, Link(e2.adj, "Pune", "Nashik"));
    assert {"Mumbai"} + {"Nashik"} == {"Mumbai", "Nashik"} && {} + {"Pune"} == {"Pune"};
    assert e2.adj["Pune" := {"Mumbai", "Nashik"}]["Nashik" := {"Pune"}]
        == map["Mumbai" := {"Pune"}, "Pune" := {"Mumbai", "Nashik"}, "Nashik" := {"Pune"}];
  }

  /** The graph `G`, a networkx `Graph` object that the build loop mutates in place. */
  class Network {
    var nodes: seq<City>
    var adj: map<City, set<City>>

    function Snapshot(): Graph
      reads this
    {
      Graph(nodes, adj)
    }

    ghost predicate Valid()
      reads this
    {
      Graphs.Valid(Snapshot())
    }

    /** `nx.Graph()` */
    constructor ()
      ensures Valid() && Snapshot() == Empty
    {
      nodes := [];
      adj := map[];
    }

    /** `G.add_edge(u, v)`: creates the missing endpoints, then links `u` and `v` both ways. */
    method AddEdge(u: City, v: City)
      requires Valid()
      modifies this
      ensures Valid()
      ensures Snapshot() == Graphs.AddEdge(old(Snapshot()), u, v)
      ensures Elems(nodes) == old(Elems(nodes)) + {u, v}
      ensures Edges(Snapshot()) == old(Edges(Snapshot())) + {{u, v}}
      ensures old(HasEdge(Snapshot(), u, v)) ==> nodes == old(nodes) && adj == old(adj)
    {
      ghost var g := Snapshot();
      if u !in adj {
        nodes := nodes + [u];
        adj := adj[u := {}];
      }
      if v !in adj {
        nodes := nodes + [v];
        adj := adj[v := {}];
      }
      adj := adj[u := adj[u] + {v}];
      adj := adj[v := adj[v] + {u}];
      AddEdgeValid(g, u, v);
      AddEdgeEdges(g, u, v);
      if HasEdge(g, u, v) {
        AddEdgeExisting(g, u, v);
      }
    }
  }

  /** Lines 16-18: a fresh graph, then one `add_edge` per record in table order. */
  method BuildNetwork(records: seq<RouteRecord>) returns (G: Network)
    ensures fresh(G) && G.Valid()
    ensures G.Snapshot() == Build(records)
    ensures Elems(G.nodes) == Departures(records) + Arrivals(records)
    ensures Edges(G.Snapshot()) == RoutePairs(records)
  {
    G := new Network();
    for i := 0 to |records|
      invariant fresh(G) && G.Valid()
      invariant G.Snapshot() == Build(records[..i])
    {
      assert records[..i + 1][..i] == records[..i];
      G.AddEdge(records[i].departure, records[i].arrival);
    }
    assert records[..|records|] == records;
    BuildNodes(records);
    BuildEdges(records);
  }
}
