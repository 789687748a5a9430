/**
 * The read-only aggregates the page shows over the route table: the sorted list of cities
 * offered in the two drop-downs and the summary-card counts.
 */
module Summary {
  import opened Graphs
  import opened Routes
  import opened Centrality

  /** Python's `<` on `str`: code point by code point, a proper prefix before the longer string. */
  predicate Below(a: string, b: string)
  {
    if a == [] then b != []
    else if b == [] then false
    else if a[0] != b[0] then a[0] < b[0]
    else Below(a[1..], b[1..])
  }

  lemma {:induction false} BelowIrreflexive(a: string)
    ensures !Below(a, a)
  {
    if a != [] {
      BelowIrreflexive(a[1..]);
    }
  }

  lemma {:induction false} BelowTotal(a: string, b: string)
    requires a != b
    ensures Below(a, b) || Below(b, a)
  {
    if a != [] && b != [] && a[0] == b[0] {
      assert a == [a[0]] + a[1..] && b == [b[0]] + b[1..];
      BelowTotal(a[1..], b[1..]);
    }
  }

  lemma {:induction false} BelowTransitive(a: string, b: string, c: string)
    requires Below(a, b) && Below(b, c)
    ensures Below(a, c)
  {
    if a != [] && b != [] && c != [] && a[0] == b[0] && b[0] == c[0] {
      BelowTransitive(a[1..], b[1..], c[1..]);
    }
  }

  /** Ascending without repetitions. */
  predicate StrictlySorted(s: seq<City>)
  {
    forall i, j | 0 <= i < j < |s| :: Below(s[i], s[j])
  }

  lemma ConsSorted(h: City, s: seq<City>)
    requires StrictlySorted(s) && forall y | y in s :: Below(h, y)
    ensures StrictlySorted([h] + s)
  {
  }

  lemma PrependSorted(x: City, s: seq<City>)
    requires StrictlySorted(s) && s != [] && Below(x, s[0])
    ensures StrictlySorted([x] + s)
  {
    forall y | y in s ensures Below(x, y) {
      var j :| 0 <= j < |s| && s[j] == y;
      if j > 0 {
        BelowTransitive(x, s[0], y);
      }
    }
    ConsSorted(x, s);
  }

  /** Places `x` into a strictly sorted list, leaving it unchanged when `x` is already there. */
  function Insert(x: City, s: seq<City>): (r: seq<City>)
    requires StrictlySorted(s)
    ensures StrictlySorted(r) && Elems(r) == Elems(s) + {x}
  {
    if s == [] then [x]
    else if x == s[0] then s
    else if Below(x, s[0]) then
      PrependSorted(x, s);
      [x] + s
    else
      BelowTotal(x, s[0]);
      var rest := Insert(x, s[1..]);
      assert s == [s[0]] + s[1..];
      assert forall y | y in rest :: Below(s[0], y) by {
        forall y | y in rest ensures Below(s[0], y) {
          if y != x {
            assert y in Elems(s[1..]);
            var j :| 0 <= j < |s[1..]| && s[1..][j] == y;
            assert s[j + 1] == y;
          }
        }
      }
      ConsSorted(s[0], rest);
      assert Elems([s[0]] + rest) == {s[0]} + Elems(rest);
      assert Elems(s) == {s[0]} + Elems(s[1..]);
      [s[0]] + rest
  }

  /** `sorted(...)` of the distinct values of `xs`: strictly ascending, the same values. */
  function SortedOf(xs: seq<City>): (r: seq<City>)
    ensures StrictlySorted(r) && Elems(r) == Elems(xs)
  {
    if xs == [] then []
    else
      assert xs == xs[..|xs| - 1] + [xs[|xs| - 1]];
      Insert(xs[|xs| - 1], SortedOf(xs[..|xs| - 1]))
  }

  /** The Departure column followed by the Arrival column. */
  function Columns(rs: seq<RouteRecord>): (col: seq<City>)
    ensures Elems(col) == Departures(rs) + Arrivals(rs)
  {
    var deps := seq(|rs|, i requires 0 <= i < |rs| => rs[i].departure);
    var arrs := seq(|rs|, i requires 0 <= i < |rs| => rs[i].arrival);
    assert Elems(deps) == Departures(rs) by {
      forall c | c in Departures(rs) ensures c in Elems(deps) {
        var i :| 0 <= i < |rs| && rs[i].departure == c;
        assert deps[i] == c;
      }
    }
    assert Elems(arrs) == Arrivals(rs) by {
      forall c | c in Arrivals(rs) ensures c in Elems(arrs) {
        var i :| 0 <= i < |rs| && rs[i].arrival == c;
        assert arrs[i] == c;
      }
    }
    deps + arrs
  }

  /** `sorted(list(set(data['Departure']).union(set(data['Arrival']))))` */
  function CityList(rs: seq<RouteRecord>): (cities: seq<City>)
    ensures StrictlySorted(cities) && Elems(cities) == Departures(rs) + Arrivals(rs)
  {
    SortedOf(Columns(rs))
  }

  /** "Total Cities": distinct departures plus distinct arrivals, a sum and not the size of their union. */
  function TotalCities(rs: seq<RouteRecord>): (n: nat)
  {
    |Departures(rs)| + |Arrivals(rs)|
  }

  /** "Operators": the number of distinct operators. */
  function UniqueOperators(rs: seq<RouteRecord>): (n: nat)
  {
    |set r | r in rs :: r.operator|
  }

  /** The number of distinct cities, which is what the "Total Cities" card evidently means to show. */
  function DistinctCities(rs: seq<RouteRecord>): (n: nat)
    ensures n <= TotalCities(rs)
  {
    |Departures(rs) + Arrivals(rs)|
  }

  lemma SortedDistinct(s: seq<City>)
    requires StrictlySorted(s)
    ensures Distinct(s)
  {
    forall i, j | 0 <= i < j < |s| ensures s[i] != s[j] {
      if s[i] == s[j] {
        BelowIrreflexive(s[i]);
      }
    }
  }

  /** A strictly sorted list is determined by its values: the city list depends on nothing but the set of cities. */
  lemma {:induction false} SortedUnique(a: seq<City>, b: seq<City>)
    requires StrictlySorted(a) && StrictlySorted(b) && Elems(a) == Elems(b)
    ensures a == b
  {
    SortedDistinct(a);
    SortedDistinct(b);
    DistinctCard(a);
    DistinctCard(b);
    if a != [] {
      assert a[0] in Elems(b) && b[0] in Elems(a);
      if a[0] != b[0] {
        var i :| 0 <= i < |a| && a[i] == b[0];
        var j :| 0 <= j < |b| && b[j] == a[0];
        BelowTransitive(a[0], b[0], a[0]);
        BelowIrreflexive(a[0]);
      }
      assert a == [a[0]] + a[1..] && b == [b[0]] + b[1..];
      assert a[0] !in a[1..] && b[0] !in b[1..];
      assert Elems(a[1..]) == Elems(a) - {a[0]};
      assert Elems(b[1..]) == Elems(b) - {b[0]};
      SortedUnique(a[1..], b[1..]);
    }
  }

  /**
   * The "Total Cities" card is at least the length of the city list, and equal to it exactly
   * when no city is both a Departure and an Arrival.
   */
  lemma TotalCitiesVsCityList(rs: seq<RouteRecord>)
    ensures |CityList(rs)| <= TotalCities(rs)
    ensures |CityList(rs)| == TotalCities(rs) <==> Departures(rs) * Arrivals(rs) == {}
  {
    var cities := CityList(rs);
    SortedDistinct(cities);
    DistinctCard(cities);
    var d, a := Departures(rs), Arrivals(rs);
    assert |d + a| + |d * a| == |d| + |a|;
  }

  /** The drop-downs offer exactly the nodes of the graph, so a selected city always has a positive centrality. */
  lemma CityListIsNodes(rs: seq<RouteRecord>)
    ensures Elems(CityList(rs)) == Elems(Build(rs).nodes)
    ensures |CityList(rs)| == |Build(rs).nodes|
    ensures forall c | c in CityList(rs) :: Lookup(DegreeCentrality(Build(rs)), c) > 0.0
  {
    BuildNodes(rs);
    BuildValid(rs);
    SortedDistinct(CityList(rs));
    DistinctCard(CityList(rs));
    DistinctCard(Build(rs).nodes);
    forall c | c in CityList(rs) ensures Lookup(DegreeCentrality(Build(rs)), c) > 0.0 {
      LookupDefault(rs, c);
    }
  }

  /** Each card counts at most one value per record: cities at most two per route, operators at most one. */
  lemma {:induction false} CardBounds(rs: seq<RouteRecord>)
    ensures TotalCities(rs) <= 2 * |rs|
    ensures UniqueOperators(rs) <= |rs|
  {
    if rs != [] {
      var p := rs[..|rs| - 1];
      CardBounds(p);
      LastSplit(rs);
      assert rs == p + [rs[|rs| - 1]];
      assert (set r | r in rs :: r.operator) == (set r | r in p :: r.operator) + {rs[|rs| - 1].operator};
    }
  }

  /** The distinct-city count equals the length of the city list and the number of graph nodes. */
  lemma DistinctCitiesMatches(rs: seq<RouteRecord>)
    ensures DistinctCities(rs) == |CityList(rs)| == |Build(rs).nodes|
  {
    CityListIsNodes(rs);
    SortedDistinct(CityList(rs));
    DistinctCard(CityList(rs));
  }

  lemma ExampleColumns()
    ensures Departures(ExampleRoutes) == {"Mumbai", "Pune"}
    ensures Arrivals(ExampleRoutes) == {"Pune", "Nashik"}
  {
  }

  /**
   * On the two-record table Mumbai-Pune, Pune-Nashik the card shows 4 although there are
   * 3 cities: Pune is counted once as a Departure and once as an Arrival.
   */
  lemma TotalCitiesOvercount()
    ensures TotalCities(ExampleRoutes) == 4
    ensures DistinctCities(ExampleRoutes) == |CityList(ExampleRoutes)| == 3
  {
    ExampleColumns();
    assert "Mumbai" != "Pune" && "Pune" != "Nashik";
    assert |{"Mumbai", "Pune"}| == 2 && |{"Pune", "Nashik"}| == 2;
    ExampleGraph();
    DistinctCitiesMatches(ExampleRoutes);
  }
}
