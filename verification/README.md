# Missing-route analyser: graph features and decision rule

A Dafny model of the core of the intercity bus-route "missing route" analyser. At start-up
the app reads a table of bus routes (Departure, Arrival, Distance, Operator) and builds an
undirected networkx graph from it: one `add_edge` per record. It then computes each
city's degree centrality. For a query (from-city, to-city, distance) it looks up the two
centralities, with 0 for a city not in the table. It forms the feature row
`[deg_u, deg_v, distance]` and hands it to a pre-trained scaler and random-forest
classifier. A probability strictly above 0.7 is reported as a likely missing route. The
page also shows the sorted list of cities in its drop-downs and a few summary counts.

Modules, one file each:

- `graph.dfy` (`Graphs`): a simple undirected graph the way networkx stores it. Nodes
  are kept in insertion order with a neighbour set per node. `AddEdge` models
  `Graph.add_edge`, `Degree` is networkx's degree (a self-loop counts twice) and `Edges`
  is the set of unordered pairs. The lemmas show that `add_edge` keeps the invariant,
  adds exactly the pair, is a no-op on an existing pair in either orientation, and
  preserves the handshake identity.
- `routes.dfy` (`Routes`): the route record, `Build` (the build loop as a fold), and what
  the built graph is: its nodes are the named cities, its edges are the record pairs,
  duplicates add nothing, and the handshake identity holds. It also has the class
  `Network`, the mutable graph object, whose `AddEdge` method updates its fields in place.
  `BuildNetwork` runs the loop over the records and is proved to produce `Build(records)`.
- `centrality.dfy` (`Centrality`): `nx.degree_centrality`, including networkx's rule that
  a graph with at most one node gives every node 1. Also the `.get(city, 0)` lookup. Proved:
  bounds in [0, 1], the degree/(n-1) formula, and that the lookup is 0 exactly for cities
  no record names.
- `prediction.dfy` (`Prediction`): the feature row, the opaque artifacts, the strict
  threshold and the whole query, plus the worked three-city example.
- `summary.dfy` (`Summary`): Python's string order, the sorted city list, the
  "Total Cities" and "Operators" counts.

## Model

| member | source | states |
|---|---|---|
| `Graphs.AddEdgeValid` | missing_route_analyser_rf.py:18 | `add_edge` keeps the graph a valid undirected simple graph (no repeated node, symmetric adjacency), adds exactly the two endpoints to the node set and links them both ways |
| `Graphs.AddEdgeEdges` | missing_route_analyser_rf.py:18 | `add_edge(u, v)` adds exactly the unordered pair {u, v} to the edge set |
| `Graphs.AddEdgeExisting` | missing_route_analyser_rf.py:18 | re-adding a pair that is already an edge, in either orientation, leaves nodes and adjacency unchanged |
| `Graphs.AddEdgeDegreeSum` | missing_route_analyser_rf.py:18 | linking two unlinked nodes adds exactly 2 to the degree sum, whether they are distinct or the same node |
| `Graphs.AddEdgeHandshake` | missing_route_analyser_rf.py:18 | `add_edge` preserves "degree sum = 2 × number of distinct edges" |
| `Graphs.DistinctCard` | missing_route_analyser_rf.py:19 | a node list without repetitions has as many distinct cities as entries (used to count the nodes that centrality divides by) |
| `Routes.BuildValid` | missing_route_analyser_rf.py:16-18 | the graph after the build loop is a valid undirected simple graph |
| `Routes.BuildNodes` | missing_route_analyser_rf.py:16-18 | the node set of the built graph is exactly the union of the Departure and Arrival values |
| `Routes.BuildEdges` | missing_route_analyser_rf.py:16-18 | every record's pair is an edge of the built graph, and there are no other edges |
| `Routes.Handshake` | missing_route_analyser_rf.py:16-19 | summed over all nodes, the degree is twice the number of distinct edges |
| `Routes.EdgeCountBound` | missing_route_analyser_rf.py:16-18 | there are never more distinct edges than records |
| `Routes.DuplicateRecord` | missing_route_analyser_rf.py:17-18 | appending a record whose pair, in either orientation, is already in the table leaves the built graph unchanged |
| `Routes.DuplicateRecordAnywhere` | missing_route_analyser_rf.py:16-18 | a record whose pair, in either orientation, already occurs earlier in the table leaves the built graph unchanged wherever it stands |
| `Routes.NoSelfLoops` | missing_route_analyser_rf.py:17-18 | when no record has Departure = Arrival, the built graph has no self-loops |
| `Routes.NamedCityLinked` | missing_route_analyser_rf.py:16-18 | every city some record names is a node with at least one neighbour |
| `Routes.ExampleGraph` | missing_route_analyser_rf.py:16-18 | the records Mumbai-Pune and Pune-Nashik build the path Mumbai - Pune - Nashik, nodes in that order |
| `Routes.Network.constructor` | missing_route_analyser_rf.py:16 | `nx.Graph()` starts valid and empty |
| `Routes.Network.AddEdge` | missing_route_analyser_rf.py:18 | the in-place `add_edge` leaves the object equal to the pure `AddEdge` of its old state: the node set grows by {u, v}, the edge set by {{u, v}}, and nothing changes when the pair was already an edge |
| `Routes.BuildNetwork` | missing_route_analyser_rf.py:16-18 | the loop over the records yields a fresh valid graph equal to `Build(records)`, whose nodes are the named cities and whose edges are the record pairs |
| `Centrality.DegreeCentrality` | missing_route_analyser_rf.py:19 | the table has an entry for exactly the nodes of the graph |
| `Centrality.DegreeBound` | missing_route_analyser_rf.py:19 | a node without a self-loop has degree at most n - 1 |
| `Centrality.CentralityBounds` | missing_route_analyser_rf.py:19 | a node without a self-loop has centrality in [0, 1] |
| `Centrality.LinkedNodePositive` | missing_route_analyser_rf.py:19 | a node with at least one neighbour has positive centrality |
| `Centrality.KnownCityCentrality` | missing_route_analyser_rf.py:19 | without Departure = Arrival records, a named city's centrality is degree / (n - 1) with n ≥ 2 |
| `Centrality.KnownCityBounds` | missing_route_analyser_rf.py:80-81 | without Departure = Arrival records, looking up a named city gives a value in (0, 1] |
| `Centrality.LookupDefault` | missing_route_analyser_rf.py:80-81 | looking up a city no record names gives exactly 0; looking up a named city gives a positive value |
| `Prediction.Features` | missing_route_analyser_rf.py:84 | the row has one value per fitted column, in the fitted order: the from-city's table value (0 when absent), the to-city's table value, then the distance, unchanged |
| `Prediction.FeaturesOfRoutes` | missing_route_analyser_rf.py:80-84 | over the built graph's table, row[0] (row[1]) is 0 exactly when the from-city (to-city) is not in the table, and row[2] is the distance |
| `Prediction.FeaturesOfKnownCities` | missing_route_analyser_rf.py:19-84 | without Departure = Arrival records, the from-city column (the to-city column) of a named city is that city's degree / (n - 1), with n ≥ 2 |
| `Prediction.FeaturesInRange` | missing_route_analyser_rf.py:80-84 | without Departure = Arrival records, both centrality features lie in [0, 1] for any two cities |
| `Prediction.FeaturesSwap` | missing_route_analyser_rf.py:84 | swapping the cities swaps the first two features and leaves the distance in place |
| `Prediction.Classify` | missing_route_analyser_rf.py:93-98 | the verdict is "missing" if and only if the probability is strictly above 0.7 |
| `Prediction.ThresholdBoundary` | missing_route_analyser_rf.py:93-98 | probability exactly 0.7 is "well connected"; anything above 0.7 is "missing" |
| `Prediction.Predict` | missing_route_analyser_rf.py:80-98 | the probability is the classifier applied to the scaled feature row, and the verdict is "missing" exactly when it exceeds 0.7 |
| `Prediction.ExampleFeatures` | missing_route_analyser_rf.py:19-84 | on Mumbai-Pune and Pune-Nashik, centralities are 0.5, 1, 0.5; the query Mumbai→Nashik at 300 km gives the row (0.5, 0.5, 300); the query Delhi→Chennai at 500 km, two cities not in the table, gives (0, 0, 500) |
| `Prediction.ExampleFeatureOrder` | missing_route_analyser_rf.py:80-84 | on Mumbai-Pune and Pune-Nashik, Pune→Delhi at 100 km gives (1, 0, 100) and Delhi→Pune gives (0, 1, 100): the columns follow the from-city and to-city |
| `Summary.Insert` | missing_route_analyser_rf.py:65 | inserting into a strictly sorted list keeps it strictly sorted and adds exactly that city |
| `Summary.SortedOf` | missing_route_analyser_rf.py:65 | `sorted` of the values gives a strictly ascending list with exactly those values |
| `Summary.Columns` | missing_route_analyser_rf.py:65 | the two columns together hold exactly the Departure and Arrival values |
| `Summary.CityList` | missing_route_analyser_rf.py:65 | the city list is strictly sorted in Python string order, hence duplicate-free, and holds exactly the union of Departure and Arrival values |
| `Summary.SortedUnique` | missing_route_analyser_rf.py:65 | two strictly sorted lists with the same values are equal, so the city list depends only on the set of cities |
| `Summary.CityListIsNodes` | missing_route_analyser_rf.py:65 | the drop-downs offer exactly the graph's nodes, so every selectable city has a positive centrality and never hits the default |
| `Summary.TotalCitiesVsCityList` | missing_route_analyser_rf.py:38 | the "Total Cities" count is at least the length of the city list, and equal to it exactly when no city is both a Departure and an Arrival |
| `Summary.CardBounds` | missing_route_analyser_rf.py:38-40 | "Total Cities" is at most twice the route count, and "Operators" at most the route count |
| `Summary.DistinctCities` | missing_route_analyser_rf.py:38 | the corrected count (size of the union) never exceeds the card's sum |
| `Summary.DistinctCitiesMatches` | missing_route_analyser_rf.py:38 | the corrected count equals the length of the city list and the number of graph nodes |
| `Summary.TotalCitiesOvercount` | missing_route_analyser_rf.py:38 | on Mumbai-Pune and Pune-Nashik the card shows 4 although there are 3 cities |

## Findings

| source | as written | input that shows it | evidently intended | confidence | as-written member | corrected member |
|---|---|---|---|---|---|---|
| missing_route_analyser_rf.py:38 | "Total Cities" is `Departure.nunique() + Arrival.nunique()`, so a city that is both a departure and an arrival is counted twice | the routes Mumbai→Pune and Pune→Nashik: the card shows 4, but there are 3 cities | the number of distinct cities, the size of the union (which is also the length of the drop-down list) | high, not executed | `Summary.TotalCitiesOvercount` (over `Summary.TotalCities`) | `Summary.DistinctCitiesMatches` (over `Summary.DistinctCities`) |

Only the display card is affected. The rest of the model does not use either count.

## Left out

- Loading the classifier, the scaler and the CSV file (lines 9-13) is file I/O. The route
  table is a parameter `rs: seq<RouteRecord>`, and the artifacts are an `Artifacts` value.
- The scaler and the random forest are opaque pre-trained objects. `scaler.transform` is a
  function `seq<real> -> seq<real>`. `predict_proba(...)[:,1][0]` is a function into the
  subset type `Probability` = [0, 1], read as the probability of the positive class.
  scikit-learn's own checks that the input width matches the fitted width are not
  modelled. `Features` always produces exactly one value per fitted column.
- The Streamlit page is left out: layout, cards, HTML, widgets and the button (lines
  24-58, 63-72, 100-109). This includes the drop-down widgets and the `number_input`
  bounds 10-2000 km on the distance. `Features` passes any distance through unchanged.
- `avg_distance` with `round` (line 37) and the percentage formatting (line 103) are
  floating-point presentation.
- The `distance` edge attribute passed to `add_edge` (line 18) is overwritten last-write-wins
  and is never read by the centrality, so the graph model keeps only nodes and adjacency.
- Floating point: centralities, probabilities and distances are `real`. networkx computes
  `d * (1.0 / (n - 1))` in doubles and the model computes the exact `d / (n - 1)`.
  The threshold is the exact 7/10. The double nearest 0.7 is slightly below 7/10, but the
  next double above it is already above 7/10. So no double lies between the two thresholds,
  and the exact comparison agrees with the source on every value `predict_proba` can return.
- Missing values (NaN) in the table are not modelled. `nunique` and the set unions would
  skip or keep them; every city here is a string.
- Node insertion order is modelled, because networkx keeps it. Nothing downstream depends
  on it, since the centrality table is read by key and the city list is sorted.
