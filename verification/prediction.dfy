/**
 * One prediction query: the centralities of the two selected cities and the distance form a
 * one-row feature frame, which the pre-trained scaler and classifier turn into the
 * probability of a missing route, and a fixed threshold turns into the reported verdict.
 */
module Prediction {
  import opened Graphs
  import opened Routes
  import opened Centrality

  /** A probability as the classifier reports it. */
  type Probability = p: real | 0.0 <= p <= 1.0

  /** The two verdicts the page can show. */
  datatype Verdict = Missing | WellConnected

  /** Probabilities strictly above this are reported as a likely missing route. */
  const MissingThreshold: real := 0.7

  /** The columns the scaler and the classifier were fitted on, in order. */
  const FeatureColumns: seq<string> := ["deg_u", "deg_v", "distance"]

  /**
   * The artifacts loaded at start-up, both opaque: `scaler.transform` and the classifier's
   * probability of the positive ("missing route") class for one scaled row.
   */
  datatype Artifacts = Artifacts(transform: seq<real> -> seq<real>, missingProbability: seq<real> -> Probability)

  datatype ScoredPrediction = ScoredPrediction(probability: Probability, verdict: Verdict)

  /** The feature row `[deg_u, deg_v, distance_input]`, one value per fitted column. */
  function Features(table: map<City, real>, fromCity: City, toCity: City, distance: real): (row: seq<real>)
    ensures |row| == |FeatureColumns|
    ensures row[0] == Lookup(table, fromCity) && row[1] == Lookup(table, toCity)
    ensures row[2] == distance
  {
    [Lookup(table, fromCity), Lookup(table, toCity), distance]
  }

  /** The verdict: a likely missing route exactly when the probability is strictly above the threshold. */
  function Classify(prob: real): (v: Verdict)
    ensures v == Missing <==> prob > MissingThreshold
  {
    if prob > MissingThreshold then Missing else WellConnected
  }

  /** The whole query: features, scaling, the classifier's probability and the verdict. */
  function Predict(art: Artifacts, table: map<City, real>, fromCity: City, toCity: City, distance: real): (p: ScoredPrediction)
    ensures p.probability == art.missingProbability(art.transform(Features(table, fromCity, toCity, distance)))
    ensures p.verdict == Missing <==> p.probability > MissingThreshold
  {
    var prob := art.missingProbability(art.transform(Features(table, fromCity, toCity, distance)));
    ScoredPrediction(prob, Classify(prob))
  }

  /**
   * Over the table of the built graph, the first two features are the centralities of the
   * two cities, each exactly 0 precisely when no record names that city; the distance passes
   * through unchanged.
   */
  lemma FeaturesOfRoutes(rs: seq<RouteRecord>, fromCity: City, toCity: City, distance: real)
    ensures var row := Features(DegreeCentrality(Build(rs)), fromCity, toCity, distance);
      && (row[0] == 0.0 <==> fromCity !in Departures(rs) + Arrivals(rs))
      && (row[1] == 0.0 <==> toCity !in Departures(rs) + Arrivals(rs))
      && row[2] == distance
  {
    LookupDefault(rs, fromCity);
    LookupDefault(rs, toCity);
  }

  /**
   * Without records from a city to itself, the from-city's column (the to-city's column) is
   * that city's degree divided by the node count minus one, whenever a record names it.
   */
  lemma FeaturesOfKnownCities(rs: seq<RouteRecord>, fromCity: City, toCity: City, distance: real)
    requires LoopFree(rs)
    ensures fromCity in Departures(rs) + Arrivals(rs) || toCity in Departures(rs) + Arrivals(rs) ==> |Build(rs).nodes| >= 2
    ensures fromCity in Departures(rs) + Arrivals(rs) ==> fromCity in Build(rs).adj
    ensures toCity in Departures(rs) + Arrivals(rs) ==> toCity in Build(rs).adj
    ensures var row := Features(DegreeCentrality(Build(rs)), fromCity, toCity, distance);
      && (fromCity in Departures(rs) + Arrivals(rs) ==>
            row[0] == Degree(Build(rs), fromCity) as real / (|Build(rs).nodes| - 1) as real)
      && (toCity in Departures(rs) + Arrivals(rs) ==>
            row[1] == Degree(Build(rs), toCity) as real / (|Build(rs).nodes| - 1) as real)
  {
    if fromCity in Departures(rs) + Arrivals(rs) {
      KnownCityCentrality(rs, fromCity);
    }
    if toCity in Departures(rs) + Arrivals(rs) {
      KnownCityCentrality(rs, toCity);
    }
  }

  /** Without records from a city to itself, both centrality features lie in [0, 1]. */
  lemma FeaturesInRange(rs: seq<RouteRecord>, fromCity: City, toCity: City, distance: real)
    requires LoopFree(rs)
    ensures var row := Features(DegreeCentrality(Build(rs)), fromCity, toCity, distance);
      0.0 <= row[0] <= 1.0 && 0.0 <= row[1] <= 1.0
  {
    LookupDefault(rs, fromCity);
    LookupDefault(rs, toCity);
    if fromCity in Departures(rs) + Arrivals(rs) {
      KnownCityBounds(rs, fromCity);
    }
    if toCity in Departures(rs) + Arrivals(rs) {
      KnownCityBounds(rs, toCity);
    }
  }

  /** The order of the row is load-bearing: swapping the cities swaps the first two features and nothing else. */
  lemma FeaturesSwap(table: map<City, real>, fromCity: City, toCity: City, distance: real)
    ensures var row := Features(table, fromCity, toCity, distance);
      Features(table, toCity, fromCity, distance) == [row[1], row[0], row[2]]
  {
  }

  /** The threshold is strict: exactly 0.7 is well connected, anything above it is missing. */
  lemma ThresholdBoundary(p: real)
    ensures Classify(0.7) == WellConnected
    ensures p > 0.7 ==> Classify(p) == Missing
    ensures p <= 0.7 ==> Classify(p) == WellConnected
  {
  }

  /**
   * On the two-record table, Mumbai and Nashik have centrality 1/2 and Pune 1; the query
   * Mumbai to Nashik at 300 km has the row (0.5, 0.5, 300), and the query Delhi to Chennai,
   * two cities the table does not name, has the row (0, 0, 500).
   */
  lemma ExampleFeatures()
    ensures DegreeCentrality(Build(ExampleRoutes)) == map["Mumbai" := 0.5, "Pune" := 1.0, "Nashik" := 0.5]
    ensures Features(DegreeCentrality(Build(ExampleRoutes)), "Mumbai", "Nashik", 300.0) == [0.5, 0.5, 300.0]
    ensures Features(DegreeCentrality(Build(ExampleRoutes)), "Delhi", "Chennai", 500.0) == [0.0, 0.0, 500.0]
  {
    ExampleGraph();
    var g := Build(ExampleRoutes);
    assert "Mumbai" != "Pune" && "Pune" != "Nashik" && "Mumbai" != "Nashik";
    assert |{"Mumbai", "Nashik"}| == 2;
    assert Degree(g, "Pune") == 2 && Degree(g, "Mumbai") == 1 && Degree(g, "Nashik") == 1;
    assert "Delhi" !in g.adj && "Chennai" !in g.adj;
  }

  /**
   * The columns follow the cities, not their order of size: from Pune (centrality 1) to
   * Delhi, a city the table does not name, at 100 km gives (1, 0, 100), and the reverse
   * query gives (0, 1, 100).
   */
  lemma ExampleFeatureOrder()
    ensures Features(DegreeCentrality(Build(ExampleRoutes)), "Pune", "Delhi", 100.0) == [1.0, 0.0, 100.0]
    ensures Features(DegreeCentrality(Build(ExampleRoutes)), "Delhi", "Pune", 100.0) == [0.0, 1.0, 100.0]
  {
    ExampleFeatures();
  }
}
