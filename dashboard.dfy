/** The query side of the dashboard: the filtered table and the three
    frequency views drawn from it, by supervisor, by classification and by
    city, the last joined with the fixed coordinate table. */
module Dashboard {
  import opened Text
  import opened Geocoder
  import opened Demands
  import opened Counts

  /** The columns the views count. */
  datatype Column = SupervisorColumn | ClassificationColumn | CityColumn

  /** `d[c]`: the value of one column in one row. */
  function Field(d: Demand, c: Column): string
  {
    match c
    case SupervisorColumn => d.supervisor
    case ClassificationColumn => d.classification
    case CityColumn => d.city
  }

  /** `rows[c]`: one column of the table, row by row. */
  function ColumnOf(rows: seq<Demand>, c: Column): (r: seq<string>)
    ensures |r| == |rows|
    ensures forall i :: 0 <= i < |rows| ==> r[i] == Field(rows[i], c)
  {
    if rows == [] then [] else [Field(rows[0], c)] + ColumnOf(rows[1..], c)
  }

  // ---------------------------------------------------------------------
  // Counts by supervisor and by classification

  /** `supervisor_counts`: `value_counts()` of the supervisor column. */
  function SupervisorCounts(rows: seq<Demand>): seq<Entry>
  {
    ValueCounts(ColumnOf(rows, SupervisorColumn))
  }

  /** One row per distinct supervisor with that supervisor's number of
      demands, each at least 1, largest first, adding up to the number of
      rows. */
  lemma {:induction false} SupervisorCountsSpec(rows: seq<Demand>)
    ensures IsFrequencyTable(SupervisorCounts(rows), ColumnOf(rows, SupervisorColumn))
    ensures forall e :: e in SupervisorCounts(rows) ==> 1 <= e.count
    ensures Sorted(SupervisorCounts(rows), false)
    ensures Sum(SupervisorCounts(rows)) == |rows|
  {
    FrequencyTableCountsPositive(SupervisorCounts(rows), ColumnOf(rows, SupervisorColumn));
  }

  /** `classificacao_counts`: `value_counts()` of the classification column,
      then `sort_values(by='Contagem', ascending=True)`. */
  function ClassificationCounts(rows: seq<Demand>): seq<Entry>
  {
    SortByCount(ValueCounts(ColumnOf(rows, ClassificationColumn)), true)
  }

  /** The same rows as the value counts of the classification column, so one
      per distinct classification with its number of demands, now smallest
      first, adding up to the number of rows. */
  lemma {:induction false} ClassificationCountsSpec(rows: seq<Demand>)
    ensures multiset(ClassificationCounts(rows)) == multiset(ValueCounts(ColumnOf(rows, ClassificationColumn)))
    ensures IsFrequencyTable(ClassificationCounts(rows), ColumnOf(rows, ClassificationColumn))
    ensures forall e :: e in ClassificationCounts(rows) ==> 1 <= e.count
    ensures Sorted(ClassificationCounts(rows), true)
    ensures Sum(ClassificationCounts(rows)) == |rows|
  {
    var col := ColumnOf(rows, ClassificationColumn);
    SortKeepsFrequencyTable(ValueCounts(col), col, true);
    FrequencyTableCountsPositive(ClassificationCounts(rows), col);
    FrequencyTableSum(ClassificationCounts(rows), col);
  }

  /** Five demands classified `a`, one `b` and three `c` give the rows
      (b, 1), (c, 3), (a, 5), in that order, whatever the order of the
      demands. */
  lemma ClassificationCountsExample(rows: seq<Demand>, a: string, b: string, c: string)
    requires a != b && b != c && a != c
    requires multiset(ColumnOf(rows, ClassificationColumn)) == multiset{a, a, a, a, a, b, c, c, c}
    ensures ClassificationCounts(rows) == [Entry(b, 1), Entry(c, 3), Entry(a, 5)]
  {
    var col := ColumnOf(rows, ClassificationColumn);
    ClassificationCountsSpec(rows);
    FiveOneThree(col, a, b, c);
    AscendingTableOfThree(ClassificationCounts(rows), col, a, b, c, 5, 1, 3);
  }

  // ---------------------------------------------------------------------
  // Occurrences by city

  /** One row of `coordenadas_df`: a city, its coordinates as the lookup
      returned them, and its number of demands. */
  datatype CityPoint = CityPoint(city: string, latitude: Option<real>, longitude: Option<real>, count: nat)

  /** `ocorrencias.loc[ocorrencias['Cidade'] == city, 'Contagem'].values[0]`:
      the count of the first row labelled `city`. */
  function CountOf(occ: seq<Entry>, city: string): (n: nat)
    requires city in Categories(occ)
    ensures exists e :: e in occ && e.category == city && n == e.count
    ensures DistinctCategories(occ) ==> forall e :: e in occ && e.category == city ==> n == e.count
  {
    assert Categories(occ) == {occ[0].category} + Categories(occ[1..]);
    if occ[0].category == city then occ[0].count
    else
      var n := CountOf(occ[1..], city);
      assert forall e :: e in occ[1..] ==> e in occ;
      n
  }

  /** The list comprehension over `ocorrencias['Cidade']` from row `i` on:
      each city that is a key of the fixed table, with the lookup's
      coordinates and its count. */
  function JoinKnown(occ: seq<Entry>, i: nat): seq<CityPoint>
    requires i <= |occ|
    decreases |occ| - i
  {
    if i == |occ| then []
    else
      var city := occ[i].category;
      var rest := JoinKnown(occ, i + 1);
      if city in FixedCoordinates then
        assert city in Categories(occ) by { assert occ[i] in occ; }
        var (lat, lon) := GetCoordinates(city);
        [CityPoint(city, lat, lon, CountOf(occ, city))] + rest
      else rest
  }

  /** `.dropna()`: the points whose coordinates are both present. */
  function DropMissing(ps: seq<CityPoint>): seq<CityPoint>
  {
    if ps == [] then []
    else if ps[0].latitude.Some? && ps[0].longitude.Some? then [ps[0]] + DropMissing(ps[1..])
    else DropMissing(ps[1..])
  }

  /** `coordenadas_df`: the filtered rows' city counts, joined with the fixed
      table. */
  function CityOccurrences(rows: seq<Demand>): seq<CityPoint>
  {
    var occ := ValueCounts(ColumnOf(rows, CityColumn));
    DropMissing(JoinKnown(occ, 0))
  }

  /** The (city, count) pairs of a list of points. */
  function PointCounts(ps: seq<CityPoint>): (r: seq<Entry>)
    ensures |r| == |ps|
    ensures forall i :: 0 <= i < |ps| ==> r[i] == Entry(ps[i].city, ps[i].count)
  {
    if ps == [] then [] else [Entry(ps[0].city, ps[0].count)] + PointCounts(ps[1..])
  }

  /** The total count a list of points shows on the map. */
  function TotalCount(ps: seq<CityPoint>): nat
  {
    Sum(PointCounts(ps))
  }

  /** The points of well-formed coordinates: a key of the table with both of
      its coordinates present. */
  ghost predicate Located(p: CityPoint)
  {
    && p.city in FixedCoordinates
    && p.latitude == Some(FixedCoordinates[p.city].0)
    && p.longitude == Some(FixedCoordinates[p.city].1)
  }

  /** The comprehension is the restriction of the counts to the keys of the
      table, each carrying the table's coordinates. */
  lemma {:induction false} JoinKnownShape(occ: seq<Entry>, i: nat)
    requires i <= |occ|
    requires DistinctCategories(occ)
    ensures PointCounts(JoinKnown(occ, i)) == RestrictTo(occ[i..], FixedCoordinates.Keys)
    ensures forall p :: p in JoinKnown(occ, i) ==> Located(p)
    decreases |occ| - i
  {
    if i < |occ| {
      assert occ[i..] == [occ[i]] + occ[i + 1..];
      JoinKnownShape(occ, i + 1);
      var city := occ[i].category;
      if city in FixedCoordinates {
        GetCoordinatesOfKey(city);
        assert occ[i] in occ;
      }
    }
  }

  /** `.dropna()` removes nothing from points that all carry coordinates. */
  lemma {:induction false} DropMissingKeepsLocated(ps: seq<CityPoint>)
    requires forall p :: p in ps ==> Located(p)
    ensures DropMissing(ps) == ps
  {
    if ps != [] {
      assert ps[0] in ps;
      DropMissingKeepsLocated(ps[1..]);
    }
  }

  /** The map's points are the value counts of the city column restricted
      to the keys of the table, each point carrying the table's
      coordinates. */
  lemma {:induction false} CityOccurrencesAreRestriction(rows: seq<Demand>)
    ensures PointCounts(CityOccurrences(rows))
            == RestrictTo(ValueCounts(ColumnOf(rows, CityColumn)), FixedCoordinates.Keys)
    ensures forall p :: p in CityOccurrences(rows) ==> Located(p)
  {
    var occ := ValueCounts(ColumnOf(rows, CityColumn));
    JoinKnownShape(occ, 0);
    assert occ[0..] == occ;
    DropMissingKeepsLocated(JoinKnown(occ, 0));
  }

  /** The map shows exactly the distinct filtered cities that are keys of the
      fixed table, once each and largest count first; unknown cities are
      dropped. */
  lemma {:induction false} CityOccurrencesSpec(rows: seq<Demand>)
    ensures IsFrequencyTable(PointCounts(CityOccurrences(rows)),
                             Among(ColumnOf(rows, CityColumn), FixedCoordinates.Keys))
    ensures Categories(PointCounts(CityOccurrences(rows)))
            == Values(ColumnOf(rows, CityColumn)) * FixedCoordinates.Keys
    ensures Sorted(PointCounts(CityOccurrences(rows)), false)
  {
    CityOccurrencesAreRestriction(rows);
    RestrictedValueCounts(ColumnOf(rows, CityColumn), FixedCoordinates.Keys);
  }

  /** Each point is a key of the table with the table's coordinates and the
      city's number of filtered demands. */
  lemma {:induction false} CityPointsSpec(rows: seq<Demand>)
    ensures forall p :: p in CityOccurrences(rows) ==>
              Located(p) && p.count == multiset(ColumnOf(rows, CityColumn))[p.city]
  {
    var r := CityOccurrences(rows);
    var cities := ColumnOf(rows, CityColumn);
    CityOccurrencesAreRestriction(rows);
    forall p | p in r
      ensures p.count == multiset(cities)[p.city]
    {
      var k :| 0 <= k < |r| && r[k] == p;
      assert PointCounts(r)[k] in RestrictTo(ValueCounts(cities), FixedCoordinates.Keys);
    }
  }

  /** The map's total is at most the number of filtered rows, and equal to it
      exactly when every filtered city is a key of the table. */
  lemma {:induction false} CityTotalSpec(rows: seq<Demand>)
    ensures TotalCount(CityOccurrences(rows)) <= |rows|
    ensures TotalCount(CityOccurrences(rows)) == |rows|
            <==> forall i :: 0 <= i < |rows| ==> rows[i].city in FixedCoordinates
  {
    CityOccurrencesAreRestriction(rows);
    RestrictedValueCounts(ColumnOf(rows, CityColumn), FixedCoordinates.Keys);
    AmongSize(ColumnOf(rows, CityColumn), FixedCoordinates.Keys);
    EveryCityKnown(rows);
  }

  /** Every value of the city column is a key exactly when every row's
      city is. */
  lemma {:induction false} EveryCityKnown(rows: seq<Demand>)
    ensures (forall v :: v in ColumnOf(rows, CityColumn) ==> v in FixedCoordinates)
            <==> (forall i :: 0 <= i < |rows| ==> rows[i].city in FixedCoordinates)
  {
    var cities := ColumnOf(rows, CityColumn);
    if forall i :: 0 <= i < |rows| ==> rows[i].city in FixedCoordinates {
      forall v | v in cities
        ensures v in FixedCoordinates
      {
        var i :| 0 <= i < |cities| && cities[i] == v;
      }
    }
  }

  /** The join tests membership of the city exactly as written, while the
      lookup upper-cases it: a city spelled with a lower-case letter never
      reaches the map, even when the lookup would place it. */
  lemma {:induction false} JoinIsCaseSensitive(rows: seq<Demand>, city: string)
    requires !HasNoLowerCase(city)
    ensures forall p :: p in CityOccurrences(rows) ==> p.city != city
  {
    CityPointsSpec(rows);
    if city in FixedCoordinates {
      KeysHaveNoLowerCase(city);
    }
  }

  /** When no filtered city is a key of the table, the map is empty. */
  lemma {:induction false} NoKnownCityNoPoints(rows: seq<Demand>)
    requires forall i :: 0 <= i < |rows| ==> rows[i].city !in FixedCoordinates
    ensures CityOccurrences(rows) == []
  {
    var cities := ColumnOf(rows, CityColumn);
    CityOccurrencesAreRestriction(rows);
    RestrictedValueCountsNone(cities, FixedCoordinates.Keys);
  }

  /** "bauru" is placed by the lookup, yet the map leaves it out. */
  lemma LowerCaseCityDropped()
    ensures GetCoordinates("bauru") == (Some(-22.262420), Some(-49.180159))
    ensures CityOccurrences([Demand("1", "Ana", "Obras", "bauru")]) == []
  {
    assert Upper("bauru") == "BAURU";
    BauruCoordinates();
    assert "bauru" !in FixedCoordinates by {
      assert !HasNoLowerCase("bauru");
      if "bauru" in FixedCoordinates {
        KeysHaveNoLowerCase("bauru");
      }
    }
    NoKnownCityNoPoints([Demand("1", "Ana", "Obras", "bauru")]);
  }

  /** A list of located points whose counts are the one row (`city`, `n`)
      is the one point for `city` with its coordinates and `n`. */
  lemma SinglePoint(ps: seq<CityPoint>, city: string, n: nat)
    requires PointCounts(ps) == [Entry(city, n)]
    requires forall p :: p in ps ==> Located(p)
    ensures city in FixedCoordinates
    ensures ps == [CityPoint(city, Some(FixedCoordinates[city].0), Some(FixedCoordinates[city].1), n)]
  {
    assert ps[0] in ps;
  }

  /** When the only filtered city that is a key of the table is `city`, the
      map holds exactly one point: `city` with the table's coordinates and
      its number of rows. */
  lemma {:induction false} OneKnownCity(rows: seq<Demand>, city: string)
    requires city in FixedCoordinates
    requires exists i :: 0 <= i < |rows| && rows[i].city == city
    requires forall i :: 0 <= i < |rows| ==> rows[i].city == city || rows[i].city !in FixedCoordinates
    ensures CityOccurrences(rows)
            == [CityPoint(city, Some(FixedCoordinates[city].0), Some(FixedCoordinates[city].1),
                          multiset(ColumnOf(rows, CityColumn))[city])]
  {
    var cities := ColumnOf(rows, CityColumn);
    assert city in cities by {
      var k :| 0 <= k < |rows| && rows[k].city == city;
      assert cities[k] == city;
    }
    RestrictedValueCountsSingle(cities, FixedCoordinates.Keys, city);
    CityOccurrencesAreRestriction(rows);
    SinglePoint(CityOccurrences(rows), city, multiset(cities)[city]);
  }

  /** Of a demand in a known city and one in an unknown city, only the
      first reaches the map, with count 1; the unknown city is dropped
      without error. */
  lemma UnknownCityDropped(known: Demand, unknown: Demand)
    requires known.city in FixedCoordinates
    requires unknown.city !in FixedCoordinates
    ensures CityOccurrences([known, unknown])
            == [CityPoint(known.city, Some(FixedCoordinates[known.city].0),
                          Some(FixedCoordinates[known.city].1), 1)]
  {
    var rows := [known, unknown];
    assert rows[0].city == known.city;
    OneKnownCity(rows, known.city);
    assert ColumnOf(rows, CityColumn) == [known.city, unknown.city];
  }

  /** A demand in Bauru and one in Marília: the map shows Bauru alone, at
      its table coordinates, with count 1. */
  lemma BauruKeptMariliaDropped()
    ensures CityOccurrences([Demand("1", "Ana", "Obras", "BAURU"), Demand("2", "Ana", "Obras", "MARÍLIA")])
            == [CityPoint("BAURU", Some(-22.262420), Some(-49.180159), 1)]
  {
    MariliaNotListed();
    BauruCoordinates();
    UnknownCityDropped(Demand("1", "Ana", "Obras", "BAURU"), Demand("2", "Ana", "Obras", "MARÍLIA"));
  }

  // ---------------------------------------------------------------------
  // The whole query

  /** What the dashboard draws: the filtered table and its three views. */
  datatype Views = Views(table: seq<Demand>, bySupervisor: seq<Entry>, byClassification: seq<Entry>,
                         byCity: seq<CityPoint>)

  /** Filter, then compute the three views from the filtered rows. */
  function Query(rows: seq<Demand>, number: string, selection: seq<string>): Views
  {
    var table := Filter(rows, number, selection);
    Views(table, SupervisorCounts(table), ClassificationCounts(table), CityOccurrences(table))
  }

  /** The supervisor and classification views are empty exactly when the
      filtered table is, and the map is empty when the table is. */
  lemma {:induction false} EmptyTableEmptyViews(rows: seq<Demand>, number: string, selection: seq<string>)
    ensures Query(rows, number, selection).table == [] <==> Query(rows, number, selection).bySupervisor == []
    ensures Query(rows, number, selection).table == [] <==> Query(rows, number, selection).byClassification == []
    ensures Query(rows, number, selection).table == [] ==> Query(rows, number, selection).byCity == []
  {
    var v := Query(rows, number, selection);
    SupervisorCountsSpec(v.table);
    ClassificationCountsSpec(v.table);
    CityOccurrencesSpec(v.table);
  }
}
