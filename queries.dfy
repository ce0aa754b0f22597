/** The integer-valued page queries over a cleaned table: the country filter
    of every page, the per-country and per-city aggregations of the
    Countries and Cities pages, and the metrics of the Home page. Each query
    takes the filtered table it works on as an argument. */
module Queries {
  import opened Values
  import opened Seqs
  import opened Lookups
  import opened Tables
  import opened Groups
  import opened Pipeline

  // ---------------------------------------------------------------------
  // The country filter

  /** `isin` on one cell: a text among the options. */
  predicate IsIn(v: Value, options: seq<string>) {
    v.S? && v.text in options
  }

  /** The test `isin` applies to the rows: the cell at `j` is among the
      options. */
  function Keeps(j: nat, options: seq<string>): Row -> bool {
    (row: Row) => j < |row| && IsIn(row[j], options)
  }

  /** `df.loc[df['country'].isin(options), :]`: the rows whose country is one
      of the options, in their order. */
  function FilterCountries(t: Table, options: seq<string>): (r: Table)
    requires WellFormed(t) && "country" in t.header
    ensures r.header == t.header && WellFormed(r) && |r.rows| <= |t.rows|
    ensures forall k :: 0 <= k < |r.rows| ==> r.rows[k] in t.rows && IsIn(Get(r, k, "country"), options)
    ensures forall k :: 0 <= k < |t.rows| && IsIn(Get(t, k, "country"), options) ==> t.rows[k] in r.rows
  {
    var kept := Filter(t.rows, Keeps(FirstIndex(t.header, "country"), options));
    assert forall k :: 0 <= k < |kept| ==> kept[k] in kept;
    Table(t.header, kept)
  }

  /** The filter keeps the rows' relative order: filtering two blocks of
      rows is filtering each block. */
  lemma FilterCountriesOrder(h: seq<string>, a: seq<Row>, b: seq<Row>, options: seq<string>)
    requires WellFormed(Table(h, a)) && WellFormed(Table(h, b)) && "country" in h
    ensures WellFormed(Table(h, a + b))
    ensures FilterCountries(Table(h, a + b), options).rows ==
      FilterCountries(Table(h, a), options).rows + FilterCountries(Table(h, b), options).rows
  {
    assert forall k :: 0 <= k < |a + b| ==> (a + b)[k] in a || (a + b)[k] in b;
    FilterConcat(a, b, Keeps(FirstIndex(h, "country"), options));
  }

  /** An empty selection keeps no row. */
  lemma FilterNoCountries(t: Table)
    requires WellFormed(t) && "country" in t.header
    ensures FilterCountries(t, []).rows == []
  {
    var r := FilterCountries(t, []);
    assert r.rows != [] ==> IsIn(Get(r, 0, "country"), []);
  }

  /** A table whose every country is a `COUNTRIES` name is kept whole by the
      default selection, the fifteen option names. */
  lemma DefaultFilterKeepsAll(t: Table)
    requires WellFormed(t) && "country" in t.header
    requires forall k :: 0 <= k < |t.rows| ==> Get(t, k, "country").S? && Get(t, k, "country").text in Countries.Values
    ensures FilterCountries(t, CountryOptions) == t
  {
    var j := FirstIndex(t.header, "country");
    forall row | row in t.rows
      ensures Keeps(j, CountryOptions)(row)
    {
      var k :| 0 <= k < |t.rows| && t.rows[k] == row;
      var v: Value := Get(t, k, "country");
      assert row[j] == v;
      CountryNameIsOption(v.text);
    }
    FilterKeepsAll(t.rows, Keeps(j, CountryOptions));
  }

  /** The cleaned rows' countries are `COUNTRIES` names. */
  lemma CleanCountries(raw: Table, canon: string -> string)
    requires WellFormed(raw) && Clean(raw, canon).Ok?
    ensures var out := Clean(raw, canon).value;
      "country" in out.header && forall k :: 0 <= k < |out.rows| ==>
        Get(out, k, "country").S? && Get(out, k, "country").text in Countries.Values
  {
    SchemaPositions();
    forall k | 0 <= k < |Clean(raw, canon).value.rows|
      ensures Field(Clean(raw, canon).value.rows[k], "country").S?
      ensures Field(Clean(raw, canon).value.rows[k], "country").text in Countries.Values
    {
      CleanValueDomains(raw, canon, k);
    }
  }

  /** With the default selection, every page filter keeps the whole cleaned
      table. */
  lemma DefaultFilterKeepsClean(raw: Table, canon: string -> string)
    requires WellFormed(raw) && Clean(raw, canon).Ok?
    ensures "country" in Clean(raw, canon).value.header
    ensures FilterCountries(Clean(raw, canon).value, CountryOptions) == Clean(raw, canon).value
  {
    CleanCountries(raw, canon);
    DefaultFilterKeepsAll(Clean(raw, canon).value);
  }

  // ---------------------------------------------------------------------
  // Grouped queries

  /** Every row has `w` cells. */
  predicate Rect(rows: seq<Row>, w: nat) {
    forall k :: 0 <= k < |rows| ==> |rows[k]| == w
  }

  /** (key cell, cell at `cj`) for every row whose key is present: `groupby`
      leaves rows with a NaN key out of every group. */
  function RowEntries(rows: seq<Row>, w: nat, kj: nat, cj: nat): (es: seq<(Value, Value)>)
    requires Rect(rows, w) && kj < w && cj < w
    ensures |es| <= |rows|
  {
    if rows == [] then []
    else
      var n := |rows| - 1;
      var es := RowEntries(rows[..n], w, kj, cj);
      if rows[n][kj] == Missing then es else es + [(rows[n][kj], rows[n][cj])]
  }

  /** The same for a key of two columns. */
  function PairEntries(rows: seq<Row>, w: nat, aj: nat, bj: nat, cj: nat): (es: seq<((Value, Value), Value)>)
    requires Rect(rows, w) && aj < w && bj < w && cj < w
    ensures |es| <= |rows|
  {
    if rows == [] then []
    else
      var n := |rows| - 1;
      var es := PairEntries(rows[..n], w, aj, bj, cj);
      if rows[n][aj] == Missing || rows[n][bj] == Missing then es
      else es + [((rows[n][aj], rows[n][bj]), rows[n][cj])]
  }

  /** The entries of `t` grouped by `key`, aggregating `col`. */
  function Entries(t: Table, key: string, col: string): seq<(Value, Value)>
    requires WellFormed(t) && key in t.header && col in t.header
  {
    RowEntries(t.rows, |t.header|, FirstIndex(t.header, key), FirstIndex(t.header, col))
  }

  /** `df.groupby('country')['restaurant_id'].count().sort_values(ascending=False)` */
  function CountryCounts(t: Table): (r: seq<(Value, int)>)
    requires WellFormed(t) && "country" in t.header && "restaurant_id" in t.header
    ensures Descending(r)
  {
    SortDesc(GroupCount(Entries(t, "country", "restaurant_id")))
  }

  /** `df.groupby('country')['city'].nunique().sort_values(ascending=False)` */
  function CountryCityCounts(t: Table): (r: seq<(Value, int)>)
    requires WellFormed(t) && "country" in t.header && "city" in t.header
    ensures Descending(r)
  {
    SortDesc(GroupNUnique(Entries(t, "country", "city")))
  }

  /** `df.groupby(['city', 'country'])['restaurant_id'].count()
      .sort_values(ascending=False).head(10)` */
  function TopCities(t: Table): seq<((Value, Value), int)>
    requires WellFormed(t) && "city" in t.header && "country" in t.header && "restaurant_id" in t.header
  {
    var es := PairEntries(t.rows, |t.header|, FirstIndex(t.header, "city"), FirstIndex(t.header, "country"),
      FirstIndex(t.header, "restaurant_id"));
    Top(GroupCount(es), 10)
  }

  /** `df.groupby('city')['cuisines'].nunique().nlargest(10)` */
  function TopCuisineCities(t: Table): seq<(Value, int)>
    requires WellFormed(t) && "city" in t.header && "cuisines" in t.header
  {
    Top(GroupNUnique(Entries(t, "city", "cuisines")), 10)
  }

  /** `(v, v)` for every present cell: what `value_counts` groups. */
  function SelfEntries(col: seq<Value>): (es: seq<(Value, Value)>)
    ensures |es| <= |col|
  {
    if col == [] then []
    else
      var es := SelfEntries(col[..|col| - 1]);
      if col[|col| - 1] == Missing then es else es + [(col[|col| - 1], col[|col| - 1])]
  }

  /** `Series.value_counts()`: the count of every present value, largest
      first. */
  function ValueCounts(col: seq<Value>): (r: seq<(Value, int)>)
    ensures Descending(r)
  {
    SortDesc(GroupCount(SelfEntries(col)))
  }

  /** `df[low]['city'].value_counts()`, where `low` stands for the rating
      test `aggregate_rating < 2.5`. */
  function LowRatingCityCounts(t: Table, low: Row -> bool): seq<(Value, int)>
    requires WellFormed(t) && "city" in t.header
  {
    var lows := Table(t.header, Filter(t.rows, low));
    assert forall k :: 0 <= k < |lows.rows| ==> lows.rows[k] in lows.rows;
    ValueCounts(Column(lows, "city"))
  }

  /** `quantidade_total`: the sum of the low-rating counts per city. */
  function LowRatingTotal(t: Table, low: Row -> bool): int
    requires WellFormed(t) && "city" in t.header
  {
    Total(LowRatingCityCounts(t, low))
  }

  // ---------------------------------------------------------------------
  // Properties of the grouped queries

  /** The key column is the same whatever column is aggregated. */
  lemma {:induction false} RowEntriesKeys(rows: seq<Row>, w: nat, kj: nat, c1: nat, c2: nat)
    requires Rect(rows, w) && kj < w && c1 < w && c2 < w
    ensures Keys(RowEntries(rows, w, kj, c1)) == Keys(RowEntries(rows, w, kj, c2))
  {
    if rows != [] {
      var n := |rows| - 1;
      RowEntriesKeys(rows[..n], w, kj, c1, c2);
      var e1, e2 := RowEntries(rows[..n], w, kj, c1), RowEntries(rows[..n], w, kj, c2);
      if rows[n][kj] != Missing {
        assert (e1 + [(rows[n][kj], rows[n][c1])])[..|e1|] == e1;
        assert (e2 + [(rows[n][kj], rows[n][c2])])[..|e2|] == e2;
      }
    }
  }

  /** A column without missing cells is present in every entry. */
  lemma {:induction false} RowEntriesComplete(rows: seq<Row>, w: nat, kj: nat, cj: nat)
    requires Rect(rows, w) && kj < w && cj < w
    requires forall k :: 0 <= k < |rows| ==> rows[k][kj] != Missing && rows[k][cj] != Missing
    ensures Present(RowEntries(rows, w, kj, cj)) == |rows|
  {
    if rows != [] {
      var n := |rows| - 1;
      var es := RowEntries(rows[..n], w, kj, cj);
      RowEntriesComplete(rows[..n], w, kj, cj);
      assert (es + [(rows[n][kj], rows[n][cj])])[..|es|] == es;
    }
  }

  /** Over a table whose countries and identifiers are never missing, the
      per-country counts add up to the number of rows. */
  lemma CountryCountsTotal(t: Table)
    requires WellFormed(t) && "country" in t.header && "restaurant_id" in t.header
    requires forall k :: 0 <= k < |t.rows| ==> Get(t, k, "country") != Missing && Get(t, k, "restaurant_id") != Missing
    ensures Total(CountryCounts(t)) == |t.rows|
  {
    var es := Entries(t, "country", "restaurant_id");
    forall k | 0 <= k < |t.rows|
      ensures t.rows[k][FirstIndex(t.header, "country")] != Missing
      ensures t.rows[k][FirstIndex(t.header, "restaurant_id")] != Missing
    {
      assert Get(t, k, "country") != Missing && Get(t, k, "restaurant_id") != Missing;
    }
    RowEntriesComplete(t.rows, |t.header|, FirstIndex(t.header, "country"), FirstIndex(t.header, "restaurant_id"));
    GroupCountTotal(es);
    TotalSortDesc(GroupCount(es));
  }

  /** Every country's distinct-city count is at most its restaurant count,
      over a table whose identifiers are never missing. */
  lemma CityCountAtMostRestaurantCount(t: Table, g: Value, n: int)
    requires WellFormed(t) && "country" in t.header && "city" in t.header && "restaurant_id" in t.header
    requires forall k :: 0 <= k < |t.rows| ==> Get(t, k, "restaurant_id") != Missing
    requires (g, n) in CountryCityCounts(t)
    ensures exists m :: (g, m) in CountryCounts(t) && n <= m
  {
    var ids := Entries(t, "country", "restaurant_id");
    var cities := Entries(t, "country", "city");
    assert (g, n) in multiset(GroupNUnique(cities));
    RowEntriesKeys(t.rows, |t.header|, FirstIndex(t.header, "country"), FirstIndex(t.header, "city"),
      FirstIndex(t.header, "restaurant_id"));
    NUniqueAtMostCount(cities, ids, g, n);
    MembersOfCompleteEntries(t, g);
    var m := |Members(ids, g)|;
    assert (g, m) in multiset(GroupCount(ids));
    assert (g, m) in CountryCounts(t);
  }

  lemma MembersOfCompleteEntries(t: Table, g: Value)
    requires WellFormed(t) && "country" in t.header && "restaurant_id" in t.header
    requires forall k :: 0 <= k < |t.rows| ==> Get(t, k, "restaurant_id") != Missing
    ensures |Members(Entries(t, "country", "restaurant_id"), g)| == Size(Entries(t, "country", "restaurant_id"), g)
  {
    var es := Entries(t, "country", "restaurant_id");
    forall k | 0 <= k < |t.rows|
      ensures t.rows[k][FirstIndex(t.header, "restaurant_id")] != Missing
    {
      assert Get(t, k, "restaurant_id") != Missing;
    }
    RowEntriesIdsPresent(t.rows, |t.header|, FirstIndex(t.header, "country"), FirstIndex(t.header, "restaurant_id"));
    MembersOfComplete(es, g);
  }

  /** Entries carry the aggregated cell of a row whose key is present. */
  lemma {:induction false} RowEntriesIdsPresent(rows: seq<Row>, w: nat, kj: nat, cj: nat)
    requires Rect(rows, w) && kj < w && cj < w
    requires forall k :: 0 <= k < |rows| ==> rows[k][cj] != Missing
    ensures forall i :: 0 <= i < |RowEntries(rows, w, kj, cj)| ==> RowEntries(rows, w, kj, cj)[i].1 != Missing
  {
    if rows != [] {
      var n := |rows| - 1;
      var es := RowEntries(rows[..n], w, kj, cj);
      RowEntriesIdsPresent(rows[..n], w, kj, cj);
    }
  }

  /** The top-10 by (city, country) has `min(10, #groups)` entries and is
      the prefix of the full descending order; no pair it leaves out has a
      larger count than a pair it keeps. */
  lemma TopCitiesFacts(t: Table)
    requires WellFormed(t) && "city" in t.header && "country" in t.header && "restaurant_id" in t.header
    ensures var es := PairEntries(t.rows, |t.header|, FirstIndex(t.header, "city"), FirstIndex(t.header, "country"),
        FirstIndex(t.header, "restaurant_id"));
      && |TopCities(t)| == Min(10, |GroupKeys(es)|)
      && TopCities(t) == SortDesc(GroupCount(es))[..|TopCities(t)|]
      && forall p, q :: p in TopCities(t) && q in GroupCount(es) && q !in TopCities(t) ==> p.1 >= q.1
  {
    var es := PairEntries(t.rows, |t.header|, FirstIndex(t.header, "city"), FirstIndex(t.header, "country"),
      FirstIndex(t.header, "restaurant_id"));
    forall p, q | p in TopCities(t) && q in GroupCount(es) && q !in TopCities(t)
      ensures p.1 >= q.1
    {
      TopIsLargest(GroupCount(es), 10, p, q);
    }
  }

  /** The distinct-cuisine ranking returns at most ten cities, and every city
      it returns has at least as many distinct cuisines as every city it
      leaves out. */
  lemma TopCuisineCitiesFacts(t: Table)
    requires WellFormed(t) && "city" in t.header && "cuisines" in t.header
    ensures |TopCuisineCities(t)| <= 10
    ensures forall p, q ::
      p in TopCuisineCities(t) && q in GroupNUnique(Entries(t, "city", "cuisines")) && q !in TopCuisineCities(t) ==>
        p.1 >= q.1
  {
    var xs := GroupNUnique(Entries(t, "city", "cuisines"));
    forall p, q | p in TopCuisineCities(t) && q in xs && q !in TopCuisineCities(t)
      ensures p.1 >= q.1
    {
      TopIsLargest(xs, 10, p, q);
    }
  }

  /** pandas lists the countries in key order, the model in order of first
      row; both sorted results have the same count at every rank, so they
      differ only in the order of countries with equal counts. */
  lemma CountryCountsIgnoreGroupOrder(t: Table, ys: seq<(Value, int)>)
    requires WellFormed(t) && "country" in t.header && "restaurant_id" in t.header
    requires multiset(ys) == multiset(GroupCount(Entries(t, "country", "restaurant_id")))
    ensures CountsOf(SortDesc(ys)) == CountsOf(CountryCounts(t))
  {
    SortDescIgnoresOrder(ys, GroupCount(Entries(t, "country", "restaurant_id")));
  }

  /** The same for the distinct cities per country. */
  lemma CountryCityCountsIgnoreGroupOrder(t: Table, ys: seq<(Value, int)>)
    requires WellFormed(t) && "country" in t.header && "city" in t.header
    requires multiset(ys) == multiset(GroupNUnique(Entries(t, "country", "city")))
    ensures CountsOf(SortDesc(ys)) == CountsOf(CountryCityCounts(t))
  {
    SortDescIgnoresOrder(ys, GroupNUnique(Entries(t, "country", "city")));
  }

  /** pandas lists the `(city, country)` groups in key order, the model in
      order of first row. For any order of the groups, the top ten have the
      same count at every rank; only the choice among groups tied at the cut
      can differ. */
  lemma TopCitiesIgnoreGroupOrder(t: Table, ys: seq<((Value, Value), int)>)
    requires WellFormed(t) && "city" in t.header && "country" in t.header && "restaurant_id" in t.header
    requires multiset(ys) == multiset(GroupCount(PairEntries(t.rows, |t.header|, FirstIndex(t.header, "city"),
      FirstIndex(t.header, "country"), FirstIndex(t.header, "restaurant_id"))))
    ensures CountsOf(Top(ys, 10)) == CountsOf(TopCities(t))
  {
    var es := PairEntries(t.rows, |t.header|, FirstIndex(t.header, "city"), FirstIndex(t.header, "country"),
      FirstIndex(t.header, "restaurant_id"));
    TopIgnoresOrder(ys, GroupCount(es), 10);
  }

  /** The same for `nunique().nlargest(10)` over cities. */
  lemma TopCuisineCitiesIgnoreGroupOrder(t: Table, ys: seq<(Value, int)>)
    requires WellFormed(t) && "city" in t.header && "cuisines" in t.header
    requires multiset(ys) == multiset(GroupNUnique(Entries(t, "city", "cuisines")))
    ensures CountsOf(Top(ys, 10)) == CountsOf(TopCuisineCities(t))
  {
    TopIgnoresOrder(ys, GroupNUnique(Entries(t, "city", "cuisines")), 10);
  }

  /** Present cells, in order. */
  function PresentCells(col: seq<Value>): (r: seq<Value>)
    ensures |r| <= |col|
  {
    if col == [] then []
    else PresentCells(col[..|col| - 1]) + (if col[|col| - 1] == Missing then [] else [col[|col| - 1]])
  }

  lemma {:induction false} SelfEntriesPresent(col: seq<Value>)
    ensures Present(SelfEntries(col)) == |PresentCells(col)|
  {
    if col != [] {
      var es := SelfEntries(col[..|col| - 1]);
      SelfEntriesPresent(col[..|col| - 1]);
      var v := col[|col| - 1];
      assert (es + [(v, v)])[..|es|] == es;
    }
  }

  /** `value_counts` counts every present cell once. */
  lemma ValueCountsTotal(col: seq<Value>)
    ensures Total(ValueCounts(col)) == |PresentCells(col)|
  {
    SelfEntriesPresent(col);
    GroupCountTotal(SelfEntries(col));
    TotalSortDesc(GroupCount(SelfEntries(col)));
  }

  /** A column without missing cells has all its cells present. */
  lemma {:induction false} PresentCellsOfComplete(col: seq<Value>)
    requires forall k :: 0 <= k < |col| ==> col[k] != Missing
    ensures PresentCells(col) == col
  {
    if col != [] {
      PresentCellsOfComplete(col[..|col| - 1]);
      assert col == col[..|col| - 1] + [col[|col| - 1]];
    }
  }

  /** Filtering keeps only rows whose cell `j` was present. */
  lemma FilterKeepsPresent(rows: seq<Row>, low: Row -> bool, j: nat)
    requires forall k :: 0 <= k < |rows| ==> j < |rows[k]| && rows[k][j] != Missing
    ensures forall k :: 0 <= k < |Filter(rows, low)| ==>
      j < |Filter(rows, low)[k]| && Filter(rows, low)[k][j] != Missing
  {
    forall k | 0 <= k < |Filter(rows, low)|
      ensures j < |Filter(rows, low)[k]| && Filter(rows, low)[k][j] != Missing
    {
      FilterFrom(rows, low, k);
    }
  }

  /** `quantidade_total` is the number of low-rating rows whose city is
      present, which is every low-rating row when no city is missing. */
  lemma LowRatingTotalCounts(t: Table, low: Row -> bool)
    requires WellFormed(t) && "city" in t.header
    ensures var lows := Table(t.header, Filter(t.rows, low));
      WellFormed(lows) && LowRatingTotal(t, low) == |PresentCells(Column(lows, "city"))|
    ensures (forall k :: 0 <= k < |t.rows| ==> Get(t, k, "city") != Missing) ==>
      LowRatingTotal(t, low) == |Filter(t.rows, low)|
  {
    var lows := Table(t.header, Filter(t.rows, low));
    assert forall k :: 0 <= k < |lows.rows| ==> lows.rows[k] in lows.rows;
    ValueCountsTotal(Column(lows, "city"));
    if forall k :: 0 <= k < |t.rows| ==> Get(t, k, "city") != Missing {
      var j := FirstIndex(t.header, "city");
      forall k | 0 <= k < |t.rows|
        ensures t.rows[k][j] != Missing
      {
        assert Get(t, k, "city") != Missing;
      }
      FilterKeepsPresent(t.rows, low, j);
      forall k | 0 <= k < |lows.rows|
        ensures Get(lows, k, "city") != Missing
      {
        assert lows.rows[k][j] != Missing;
      }
      PresentCellsOfComplete(Column(lows, "city"));
    }
  }

  // ---------------------------------------------------------------------
  // Home metrics

  /** `df.loc[:, 'country'].unique().tolist()`: the multiselect options. */
  function CountryChoices(t: Table): (r: seq<Value>)
    requires WellFormed(t) && "country" in t.header
    ensures Distinct(r)
    ensures forall v :: v in r <==> v in Column(t, "country")
  {
    Dedup(Column(t, "country"))
  }

  /** The options list the countries in the order they first appear. */
  lemma CountryChoicesOrder(t: Table)
    requires WellFormed(t) && "country" in t.header
    ensures forall i, j :: 0 <= i < j < |CountryChoices(t)| ==>
      FirstIndex(Column(t, "country"), CountryChoices(t)[i]) < FirstIndex(Column(t, "country"), CountryChoices(t)[j])
  {
    DedupFirstAppearance(Column(t, "country"));
  }

  /** `Series.nunique()`: the number of distinct present values. */
  function NUnique(col: seq<Value>): nat {
    |Dedup(PresentCells(col))|
  }

  /** Each distinct count is at most the number of rows, and zero on an
      empty selection. */
  lemma NUniqueBound(t: Table, name: string)
    requires WellFormed(t) && name in t.header
    ensures NUnique(Column(t, name)) <= |t.rows|
    ensures t.rows == [] ==> NUnique(Column(t, name)) == 0
  {
  }

  /** The texts of `names` as cells. */
  function TextCells(names: seq<string>): (r: seq<Value>)
    ensures |r| == |names|
    ensures forall i :: 0 <= i < |names| ==> r[i] == S(names[i])
  {
    if names == [] then [] else TextCells(names[..|names| - 1]) + [S(names[|names| - 1])]
  }

  lemma {:induction false} PresentCellsIn(col: seq<Value>, v: Value)
    requires v in PresentCells(col)
    ensures v in col
  {
    if col != [] {
      InFrontOrLast(col, v);
      var init := PresentCells(col[..|col| - 1]);
      if v in init {
        PresentCellsIn(col[..|col| - 1], v);
      }
    }
  }

  /** A column whose every cell is one of `names` has at most `|names|`
      distinct values. */
  lemma TextsBound(col: seq<Value>, names: seq<string>)
    requires forall k :: 0 <= k < |col| ==> IsIn(col[k], names)
    ensures NUnique(col) <= |names|
  {
    var xs := Dedup(PresentCells(col));
    forall i | 0 <= i < |xs|
      ensures xs[i] in TextCells(names)
    {
      assert xs[i] in PresentCells(col);
      PresentCellsIn(col, xs[i]);
      var k :| 0 <= k < |col| && col[k] == xs[i];
      var m :| 0 <= m < |names| && names[m] == xs[i].text;
      assert TextCells(names)[m] == xs[i];
    }
    Pigeonhole(xs, TextCells(names));
  }

  /** Filtering keeps only rows whose cell `j` was among `names`. */
  lemma FilterKeepsIn(rows: seq<Row>, p: Row -> bool, j: nat, names: seq<string>)
    requires forall k :: 0 <= k < |rows| ==> j < |rows[k]| && IsIn(rows[k][j], names)
    ensures forall k :: 0 <= k < |Filter(rows, p)| ==>
      j < |Filter(rows, p)[k]| && IsIn(Filter(rows, p)[k][j], names)
  {
    forall k | 0 <= k < |Filter(rows, p)|
      ensures j < |Filter(rows, p)[k]| && IsIn(Filter(rows, p)[k][j], names)
    {
      FilterFrom(rows, p, k);
    }
  }

  /** After filtering by `countries`, the distinct-country metric is at most
      the number of countries chosen, and at most fifteen when every country
      of the table is a `COUNTRIES` name. */
  lemma CountryMetricBound(t: Table, countries: seq<string>)
    requires WellFormed(t) && "country" in t.header
    ensures NUnique(Column(FilterCountries(t, countries), "country")) <= |countries|
    ensures (forall k :: 0 <= k < |t.rows| ==> Get(t, k, "country").S? && Get(t, k, "country").text in Countries.Values) ==>
      NUnique(Column(FilterCountries(t, countries), "country")) <= 15
  {
    var f := FilterCountries(t, countries);
    var col := Column(f, "country");
    forall k | 0 <= k < |col|
      ensures IsIn(col[k], countries)
    {
      assert col[k] == Get(f, k, "country");
    }
    TextsBound(col, countries);
    if forall k :: 0 <= k < |t.rows| ==> Get(t, k, "country").S? && Get(t, k, "country").text in Countries.Values {
      var j := FirstIndex(t.header, "country");
      forall k | 0 <= k < |t.rows|
        ensures j < |t.rows[k]| && IsIn(t.rows[k][j], CountryOptions)
      {
        var v: Value := Get(t, k, "country");
        CountryNameIsOption(v.text);
      }
      FilterKeepsIn(t.rows, Keeps(j, countries), j, CountryOptions);
      forall k | 0 <= k < |col|
        ensures IsIn(col[k], CountryOptions)
      {
        assert col[k] == f.rows[k][j];
      }
      TextsBound(col, CountryOptions);
    }
  }

  /** `Series.sum()` on an integer column; missing cells are skipped. */
  function SumInts(col: seq<Value>): int
    requires forall k :: 0 <= k < |col| ==> !col[k].S?
  {
    if col == [] then 0
    else SumInts(col[..|col| - 1]) + (if col[|col| - 1].I? then col[|col| - 1].num else 0)
  }

  /** `df.loc[:, 'votes'].sum()` */
  function VoteSum(t: Table): int
    requires WellFormed(t) && "votes" in t.header
    requires forall k :: 0 <= k < |t.rows| ==> !Get(t, k, "votes").S?
  {
    SumInts(Column(t, "votes"))
  }

  /** The sum over two blocks of cells is the sum of the two sums; the sum
      over no cell is zero. */
  lemma {:induction false} SumIntsConcat(a: seq<Value>, b: seq<Value>)
    requires forall k :: 0 <= k < |a| ==> !a[k].S?
    requires forall k :: 0 <= k < |b| ==> !b[k].S?
    ensures forall k :: 0 <= k < |a + b| ==> !(a + b)[k].S?
    ensures SumInts(a + b) == SumInts(a) + SumInts(b)
    ensures SumInts([]) == 0
  {
    if b != [] {
      var n := |b| - 1;
      assert (a + b)[..|a + b| - 1] == a + b[..n];
      SumIntsConcat(a, b[..n]);
    } else {
      assert a + b == a;
    }
  }

  /** The votes total of one more row is the old total plus that row's
      votes. */
  lemma VoteSumSnoc(h: seq<string>, rows: seq<Row>, row: Row)
    requires WellFormed(Table(h, rows)) && |row| == |h| && "votes" in h
    requires forall k :: 0 <= k < |rows| ==> !Get(Table(h, rows), k, "votes").S?
    requires !row[FirstIndex(h, "votes")].S?
    ensures WellFormed(Table(h, rows + [row]))
    ensures forall k :: 0 <= k < |rows + [row]| ==> !Get(Table(h, rows + [row]), k, "votes").S?
    ensures VoteSum(Table(h, rows + [row])) ==
      VoteSum(Table(h, rows)) + (if row[FirstIndex(h, "votes")].I? then row[FirstIndex(h, "votes")].num else 0)
  {
    var t := Table(h, rows + [row]);
    var col := Column(t, "votes");
    assert col[..|rows|] == Column(Table(h, rows), "votes");
  }

  /** The votes total of an empty selection is zero. */
  lemma VoteSumEmpty(h: seq<string>)
    requires "votes" in h
    ensures VoteSum(Table(h, [])) == 0
  {
  }
}
