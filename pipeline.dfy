/** `clean_code` (lines 132-184 of every page) as a composition of its seven
    stages over table values, a per-record reference definition of what a
    cleaned record is, and the proof that the two agree. */
module Pipeline {
  import opened Values
  import opened Seqs
  import opened Lookups
  import opened Tables

  /** `adjust_columns_order`'s column list: the schema of a cleaned table. */
  const CleanSchema: seq<string> := [
    "restaurant_id", "restaurant_name", "country", "city", "address", "locality",
    "locality_verbose", "longitude", "latitude", "cuisines", "price_type",
    "average_cost_for_two", "currency", "has_table_booking", "has_online_delivery",
    "is_delivering_now", "aggregate_rating", "rating_color", "color_name",
    "rating_text", "votes"
  ]

  /** The eleven columns stage 7 strips, in the order it strips them. */
  const TextColumns: seq<string> := [
    "restaurant_name", "city", "address", "locality", "locality_verbose",
    "cuisines", "currency", "rating_color", "rating_text", "country", "color_name"
  ]

  /** The columns stage 3 writes. */
  const DerivedColumns: seq<string> := ["price_type", "country", "color_name"]

  lemma SchemaFacts()
    ensures |CleanSchema| == 21 && Distinct(CleanSchema)
    ensures forall i :: 0 <= i < |TextColumns| ==> TextColumns[i] in CleanSchema
    ensures forall n :: n in DerivedColumns ==> n in CleanSchema
    ensures "rating_color" in CleanSchema && "cuisines" in CleanSchema
    ensures "rating_color" !in DerivedColumns && "cuisines" !in DerivedColumns
    ensures "price_type" !in TextColumns
    ensures "country" in TextColumns && "color_name" in TextColumns && "cuisines" in TextColumns
  {
    SchemaDistinct();
    TextColumnsInSchema();
    DerivedColumnsInSchema();
    ColumnRoles();
  }

  /** The columns stage 3 writes, and the two it reads that survive, are in
      the schema. */
  lemma DerivedColumnsInSchema()
    ensures forall n :: n in DerivedColumns ==> n in CleanSchema
    ensures "rating_color" in CleanSchema && "cuisines" in CleanSchema
  {
    assert CleanSchema[17] == "rating_color" && CleanSchema[9] == "cuisines";
  }

  /** Which of the columns the stages touch are derived and which are
      stripped. */
  lemma ColumnRoles()
    ensures "rating_color" !in DerivedColumns && "cuisines" !in DerivedColumns
    ensures "price_type" !in TextColumns
    ensures "country" in TextColumns && "color_name" in TextColumns && "cuisines" in TextColumns
  {
    assert TextColumns[9] == "country" && TextColumns[10] == "color_name" && TextColumns[5] == "cuisines";
  }

  /** No label appears twice in the schema. */
  lemma SchemaDistinct()
    ensures |CleanSchema| == 21 && Distinct(CleanSchema)
  {
  }

  /** Every column stage 7 strips survives the projection. */
  lemma TextColumnsInSchema()
    ensures forall i :: 0 <= i < |TextColumns| ==> TextColumns[i] in CleanSchema
  {
  }

  /** Where the columns the stages derive or read sit in the schema. */
  lemma SchemaPositions()
    ensures "restaurant_id" in CleanSchema && FirstIndex(CleanSchema, "restaurant_id") == 0
    ensures "country" in CleanSchema && FirstIndex(CleanSchema, "country") == 2
    ensures "cuisines" in CleanSchema && FirstIndex(CleanSchema, "cuisines") == 9
    ensures "price_type" in CleanSchema && FirstIndex(CleanSchema, "price_type") == 10
    ensures "rating_color" in CleanSchema && FirstIndex(CleanSchema, "rating_color") == 17
    ensures "color_name" in CleanSchema && FirstIndex(CleanSchema, "color_name") == 18
  {
    SchemaFrontPositions();
    SchemaBackPositions();
  }

  lemma SchemaFrontPositions()
    ensures "restaurant_id" in CleanSchema && FirstIndex(CleanSchema, "restaurant_id") == 0
    ensures "country" in CleanSchema && FirstIndex(CleanSchema, "country") == 2
    ensures "cuisines" in CleanSchema && FirstIndex(CleanSchema, "cuisines") == 9
  {
    SchemaPosition(0, "restaurant_id");
    SchemaPosition(2, "country");
    SchemaPosition(9, "cuisines");
  }

  lemma SchemaBackPositions()
    ensures "price_type" in CleanSchema && FirstIndex(CleanSchema, "price_type") == 10
    ensures "rating_color" in CleanSchema && FirstIndex(CleanSchema, "rating_color") == 17
    ensures "color_name" in CleanSchema && FirstIndex(CleanSchema, "color_name") == 18
  {
    SchemaPosition(10, "price_type");
    SchemaPosition(17, "rating_color");
    SchemaPosition(18, "color_name");
  }

  /** The schema position of each label the stages derive or read. */
  lemma SchemaPosition(i: nat, n: string)
    requires (i, n) in [(0, "restaurant_id"), (2, "country"), (9, "cuisines"),
                        (10, "price_type"), (17, "rating_color"), (18, "color_name")]
    ensures n in CleanSchema && FirstIndex(CleanSchema, n) == i
  {
    if i == 0 {
      SchemaAt(0, "restaurant_id");
    } else if i == 2 {
      SchemaAt(2, "country");
    } else if i == 9 {
      SchemaAt(9, "cuisines");
    } else if i == 10 {
      SchemaAt(10, "price_type");
    } else if i == 17 {
      SchemaAt(17, "rating_color");
    } else {
      SchemaAt(18, "color_name");
    }
  }

  /** A label at position `i` that no earlier position holds is found at `i`. */
  lemma SchemaAt(i: nat, n: string)
    requires i < |CleanSchema| && CleanSchema[i] == n
    ensures n in CleanSchema && FirstIndex(CleanSchema, n) == i
  {
    SchemaFacts();
    FirstIndexOfDistinct(CleanSchema, i);
  }

  /** The two code columns are read by stage 3 and not kept. */
  lemma SchemaLacksCodes()
    ensures "price_range" !in CleanSchema && "country_code" !in CleanSchema
  {
  }

  // ---------------------------------------------------------------------
  // Stage 3: derived columns

  /** `apply` of a lookup that may raise: every code mapped, in order, or the
      error of the first code that is not. */
  function LookupAll(codes: seq<Value>, lookup: Value -> Result<string>): (r: Result<seq<Value>>)
    ensures r.Ok? <==> forall k :: 0 <= k < |codes| ==> lookup(codes[k]).Ok?
    ensures r.Ok? ==> |r.value| == |codes|
    ensures r.Ok? ==> forall k :: 0 <= k < |codes| ==> r.value[k] == S(lookup(codes[k]).value)
    ensures r.Err? ==>
      (exists k :: 0 <= k < |codes| && lookup(codes[k]).Err? && r.error == lookup(codes[k]).error &&
         forall m :: 0 <= m < k ==> lookup(codes[m]).Ok?)
  {
    if codes == [] then Ok([])
    else
      var first :- lookup(codes[0]);
      var rest := LookupAll(codes[1..], lookup);
      if rest.Err? then
        ghost var k :| 0 <= k < |codes[1..]| && lookup(codes[1..][k]).Err? &&
          rest.error == lookup(codes[1..][k]).error && forall m :: 0 <= m < k ==> lookup(codes[1..][m]).Ok?;
        assert codes[k + 1] == codes[1..][k];
        assert forall m :: 1 <= m < k + 1 ==> codes[m] == codes[1..][m - 1];
        Err(rest.error)
      else
        Ok([S(first)] + rest.value)
  }

  /** `create_price_tye` applied to every cell of the column. */
  function PriceTypes(ranges: seq<Value>): (r: seq<Value>)
    ensures |r| == |ranges|
    ensures forall k :: 0 <= k < |ranges| ==> r[k] == S(PriceType(ranges[k]))
  {
    if ranges == [] then []
    else PriceTypes(ranges[..|ranges| - 1]) + [S(PriceType(ranges[|ranges| - 1]))]
  }

  /** `df1['price_type'] = df1.loc[:, 'price_range'].apply(create_price_tye)` */
  function AddPriceType(t: Table): (r: Result<Table>)
    requires WellFormed(t)
    ensures r.Ok? <==> "price_range" in t.header
    ensures r.Err? ==> r.error == MissingColumn("price_range")
    ensures r.Ok? ==> WellFormed(r.value) && |r.value.rows| == |t.rows|
    ensures r.Ok? ==> forall n :: n in r.value.header <==> n in t.header || n == "price_type"
  {
    var ranges :- ColumnNamed(t, "price_range");
    Ok(WithColumn(t, "price_type", PriceTypes(ranges)))
  }

  /** `df1["country"] = df1.loc[:, "country_code"].apply(country_name)` */
  function AddCountry(t: Table): (r: Result<Table>)
    requires WellFormed(t)
    ensures r.Ok? <==> ("country_code" in t.header &&
      forall k :: 0 <= k < |t.rows| ==> CountryName(Get(t, k, "country_code")).Ok?)
    ensures r.Err? ==> (r.error == MissingColumn("country_code") ||
      exists k :: 0 <= k < |t.rows| && "country_code" in t.header &&
         r.error == UnmappedCountry(Get(t, k, "country_code")))
    ensures r.Ok? ==> WellFormed(r.value) && |r.value.rows| == |t.rows|
    ensures r.Ok? ==> forall n :: n in r.value.header <==> n in t.header || n == "country"
  {
    var codes :- ColumnNamed(t, "country_code");
    var names :- LookupAll(codes, CountryName);
    Ok(WithColumn(t, "country", names))
  }

  /** `df1["color_name"] = df1.loc[:, "rating_color"].apply(color_name)` */
  function AddColorName(t: Table): (r: Result<Table>)
    requires WellFormed(t)
    ensures r.Ok? <==> ("rating_color" in t.header &&
      forall k :: 0 <= k < |t.rows| ==> ColorName(Get(t, k, "rating_color")).Ok?)
    ensures r.Err? ==> (r.error == MissingColumn("rating_color") ||
      exists k :: 0 <= k < |t.rows| && "rating_color" in t.header &&
         r.error == UnmappedColor(Get(t, k, "rating_color")))
    ensures r.Ok? ==> WellFormed(r.value) && |r.value.rows| == |t.rows|
    ensures r.Ok? ==> forall n :: n in r.value.header <==> n in t.header || n == "color_name"
  {
    var codes :- ColumnNamed(t, "rating_color");
    var names :- LookupAll(codes, ColorName);
    Ok(WithColumn(t, "color_name", names))
  }

  /** Stage 3, the three assignments in their order. */
  function AddDerivedColumns(t: Table): (r: Result<Table>)
    requires WellFormed(t)
    ensures r.Ok? ==> WellFormed(r.value) && |r.value.rows| == |t.rows|
    ensures r.Ok? ==> forall n :: n in r.value.header <==> n in t.header || n in DerivedColumns
  {
    var t1 :- AddPriceType(t);
    var t2 :- AddCountry(t1);
    AddColorName(t2)
  }

  // ---------------------------------------------------------------------
  // Stage 4: primary cuisine

  /** `astype(str)` applied to every cell of the column. */
  function Texts(col: seq<Value>): (r: seq<Value>)
    ensures |r| == |col|
    ensures forall k :: 0 <= k < |col| ==> r[k] == S(AsText(col[k]))
  {
    if col == [] then []
    else Texts(col[..|col| - 1]) + [S(AsText(col[|col| - 1]))]
  }

  /** `x.split(",")[0]` applied to every cell of the column. */
  function FirstPieces(col: seq<Value>): (r: seq<Value>)
    ensures |r| == |col|
    ensures forall k :: 0 <= k < |col| ==> r[k] == S(BeforeComma(AsText(col[k])))
  {
    if col == [] then []
    else FirstPieces(col[..|col| - 1]) + [S(BeforeComma(AsText(col[|col| - 1])))]
  }

  /** `df1['cuisines'] = df1['cuisines'].astype(str)` followed by
      `df1['cuisines'] = df1.loc[:, "cuisines"].apply(lambda x: x.split(",")[0])` */
  function FirstCuisine(t: Table): (r: Result<Table>)
    requires WellFormed(t)
    ensures r.Ok? <==> "cuisines" in t.header
    ensures r.Err? ==> r.error == MissingColumn("cuisines")
    ensures r.Ok? ==> r.value.header == t.header && WellFormed(r.value) && |r.value.rows| == |t.rows|
  {
    var raw :- ColumnNamed(t, "cuisines");
    var t1 := WithColumn(t, "cuisines", Texts(raw));
    Ok(WithColumn(t1, "cuisines", FirstPieces(Column(t1, "cuisines"))))
  }

  // ---------------------------------------------------------------------
  // Stage 7: trimming

  /** `str.strip()` applied to every cell of the column. */
  function Stripped(col: seq<Value>): (r: seq<Value>)
    ensures |r| == |col|
    ensures forall k :: 0 <= k < |col| ==> r[k] == StripValue(col[k])
  {
    if col == [] then []
    else Stripped(col[..|col| - 1]) + [StripValue(col[|col| - 1])]
  }

  /** `df1.loc[:, name] = df1.loc[:, name].str.strip()` */
  function StripColumn(t: Table, name: string): (r: Table)
    requires WellFormed(t) && name in t.header
    ensures r.header == t.header && WellFormed(r) && |r.rows| == |t.rows|
  {
    WithColumn(t, name, Stripped(Column(t, name)))
  }

  /** The stripping statements for `names`, in order. */
  function StripColumns(t: Table, names: seq<string>): (r: Table)
    requires WellFormed(t) && forall i :: 0 <= i < |names| ==> names[i] in t.header
    ensures r.header == t.header && WellFormed(r) && |r.rows| == |t.rows|
    decreases |names|
  {
    if names == [] then t
    else StripColumn(StripColumns(t, names[..|names| - 1]), names[|names| - 1])
  }

  // ---------------------------------------------------------------------
  // The pipeline

  /** Stages 1 to 4: drop incomplete rows, rename, derive, cut cuisines. */
  function Prepare(raw: Table, canon: string -> string): (r: Result<Table>)
    requires WellFormed(raw)
    ensures r.Ok? ==> WellFormed(r.value) && |r.value.rows| == |DropNA(raw).rows|
    ensures r.Ok? ==> forall n :: n in r.value.header <==> n in Relabel(raw.header, canon) || n in DerivedColumns
  {
    var t2 := RenameColumns(DropNA(raw), canon);
    var t3 :- AddDerivedColumns(t2);
    FirstCuisine(t3)
  }

  /** `clean_code(df)`: the seven stages in order; the first failing stage
      aborts the run and no table is produced. */
  function Clean(raw: Table, canon: string -> string): (r: Result<Table>)
    requires WellFormed(raw)
    ensures r.Ok? ==> r.value.header == CleanSchema && WellFormed(r.value)
  {
    var t4 :- Prepare(raw, canon);
    Finish(t4)
  }

  /** Stages 5 to 7: de-duplication, the projection onto the schema and the
      trimming of the text columns. */
  function Finish(t4: Table): (r: Result<Table>)
    requires WellFormed(t4)
    ensures r.Ok? ==> r.value.header == CleanSchema && WellFormed(r.value)
  {
    var t6 :- Select(DropDuplicates(t4), CleanSchema);
    SchemaFacts();
    Ok(StripColumns(t6, TextColumns))
  }

  // ---------------------------------------------------------------------
  // Reference definition: one cleaned record per complete raw row

  /** The code columns stage 3 reads. */
  predicate CodesPresent(h: seq<string>) {
    "price_range" in h && "country_code" in h && "rating_color" in h
  }

  /** Every column stages 3 and 4 read. */
  predicate ReadsPresent(h: seq<string>) {
    CodesPresent(h) && "cuisines" in h
  }

  /** The renamed raw header has every column the pipeline reads: the two
      codes that are dropped after use and every schema column that stage 3
      does not create. */
  predicate HeaderSupports(h: seq<string>) {
    && ReadsPresent(h)
    && forall i :: 0 <= i < |CleanSchema| && CleanSchema[i] !in DerivedColumns ==> CleanSchema[i] in h
  }

  /** The codes of the row are known to both lookup tables. */
  predicate CodesMapped(h: seq<string>, r: Row)
    requires |r| == |h| && CodesPresent(h)
  {
    CountryName(r[FirstIndex(h, "country_code")]).Ok? && ColorName(r[FirstIndex(h, "rating_color")]).Ok?
  }

  /** Field `name` of row `r` after stage 3: a derived column holds the
      lookup of the row's own code, any other column what it held. */
  function DerivedField(h: seq<string>, r: Row, name: string): Value
    requires |r| == |h| && CodesPresent(h) && CodesMapped(h, r)
    requires name in h || name in DerivedColumns
  {
    if name == "price_type" then S(PriceType(r[FirstIndex(h, "price_range")]))
    else if name == "country" then S(CountryName(r[FirstIndex(h, "country_code")]).value)
    else if name == "color_name" then S(ColorName(r[FirstIndex(h, "rating_color")]).value)
    else r[FirstIndex(h, name)]
  }

  /** Field `name` of row `r` after stage 4: `cuisines` is cut at its first
      comma. */
  function PreparedField(h: seq<string>, r: Row, name: string): Value
    requires |r| == |h| && ReadsPresent(h) && CodesMapped(h, r)
    requires name in h || name in DerivedColumns
  {
    if name == "cuisines" then S(BeforeComma(AsText(r[FirstIndex(h, "cuisines")])))
    else DerivedField(h, r, name)
  }

  /** The cell of `r` under `name`, or `Missing` when `h` has no such label. */
  function Cell(h: seq<string>, r: Row, name: string): Value
    requires |r| == |h|
  {
    if name in h then r[FirstIndex(h, name)] else Missing
  }

  /** A looked-up name as a cell; `Missing` for a code the table lacks. */
  function Found(x: Result<string>): Value {
    if x.Ok? then S(x.value) else Missing
  }

  /** Field `name` of the cleaned record made from raw row `r` under the
      renamed header `h`. It is defined for every label and row; `CleanRecord`
      reads it only when the header has every column and the codes are
      mapped, where no `Missing` of its own making arises. */
  function RecordField(h: seq<string>, r: Row, name: string): Value
    requires |r| == |h|
  {
    if name == "price_type" then S(PriceType(Cell(h, r, "price_range")))
    else if name == "country" then Found(CountryName(Cell(h, r, "country_code")))
    else if name == "color_name" then Found(ColorName(Cell(h, r, "rating_color")))
    else if name == "cuisines" then S(Strip(BeforeComma(AsText(Cell(h, r, "cuisines")))))
    else if name in TextColumns then StripValue(Cell(h, r, name))
    else Cell(h, r, name)
  }

  /** The cleaned record of raw row `r`, or nothing when the header lacks a
      column or a code of the row is unmapped. */
  function CleanRecord(h: seq<string>, r: Row): (o: Option<Row>)
    requires |r| == |h|
    ensures o.Some? <==> HeaderSupports(h) && CodesMapped(h, r)
    ensures o.Some? ==> |o.value| == |CleanSchema|
  {
    if !HeaderSupports(h) || !CodesMapped(h, r) then None
    else Some(RecordFields(h, r, CleanSchema))
  }

  /** The fields `names` of the cleaned record of `r`, in that order. */
  function RecordFields(h: seq<string>, r: Row, names: seq<string>): (f: Row)
    requires |r| == |h|
    ensures |f| == |names|
    ensures forall i :: 0 <= i < |names| ==> f[i] == RecordField(h, r, names[i])
  {
    if names == [] then []
    else
      var n := |names| - 1;
      assert forall i :: 0 <= i < n ==> names[..n][i] == names[i];
      RecordFields(h, r, names[..n]) + [RecordField(h, r, names[n])]
  }

  /** A cleaned field is its stage-4 value, trimmed when the column is one of
      the text columns; the looked-up names need no trimming. */
  lemma RecordFieldFromPrepared(h: seq<string>, r: Row, name: string)
    requires |r| == |h| && HeaderSupports(h) && CodesMapped(h, r) && name in CleanSchema
    ensures name in h || name in DerivedColumns
    ensures RecordField(h, r, name) ==
      if name in TextColumns then StripValue(PreparedField(h, r, name)) else PreparedField(h, r, name)
  {
    SchemaFacts();
    LabelsDistinct();
    if name == "country" {
      CountryNameStripped(CountryName(r[FirstIndex(h, "country_code")]).value);
    } else if name == "color_name" {
      ColorNameStripped(ColorName(r[FirstIndex(h, "rating_color")]).value);
    }
  }

  // ---------------------------------------------------------------------
  // Stage 3, one cell at a time

  /** The labels the stages test against one another are different texts. */
  lemma LabelsDistinct()
    ensures "price_type" != "country" && "price_type" != "color_name" && "country" != "color_name"
    ensures "country_code" != "country" && "country_code" != "price_type" && "country_code" != "color_name"
    ensures "rating_color" != "country" && "rating_color" != "price_type" && "rating_color" != "color_name"
    ensures "price_range" != "price_type" && "cuisines" !in DerivedColumns
  {
    assert "price_type"[0] != "country"[0] && "color_name"[2] != "country"[2] && "price_type"[0] != "color_name"[0];
    assert "country_code"[7] != "country"[6];
    assert "rating_color"[0] != "country"[0] && "rating_color"[0] != "price_type"[0] && "rating_color"[0] != "color_name"[0];
    assert "country_code"[0] != "price_type"[0] && "country_code"[2] != "color_name"[2];
    assert "price_range"[6] != "price_type"[6];
  }

  lemma AddPriceTypeCell(t: Table, k: nat, n: string)
    requires WellFormed(t) && "price_range" in t.header && k < |t.rows|
    requires n in t.header || n == "price_type"
    ensures AddPriceType(t).Ok? && n in AddPriceType(t).value.header
    ensures Get(AddPriceType(t).value, k, n) ==
      if n == "price_type" then S(PriceType(Get(t, k, "price_range"))) else Get(t, k, n)
  {
    var col := PriceTypes(Column(t, "price_range"));
    assert AddPriceType(t).value == WithColumn(t, "price_type", col);
    WithColumnGet(t, "price_type", col, k, n);
  }

  lemma AddCountryCell(t: Table, k: nat, n: string)
    requires WellFormed(t) && AddCountry(t).Ok? && k < |t.rows|
    requires n in t.header || n == "country"
    ensures n in AddCountry(t).value.header
    ensures Get(AddCountry(t).value, k, n) ==
      if n == "country" then S(CountryName(Get(t, k, "country_code")).value) else Get(t, k, n)
  {
    var names := LookupAll(Column(t, "country_code"), CountryName).value;
    assert AddCountry(t).value == WithColumn(t, "country", names);
    WithColumnGet(t, "country", names, k, n);
  }

  lemma AddColorNameCell(t: Table, k: nat, n: string)
    requires WellFormed(t) && AddColorName(t).Ok? && k < |t.rows|
    requires n in t.header || n == "color_name"
    ensures n in AddColorName(t).value.header
    ensures Get(AddColorName(t).value, k, n) ==
      if n == "color_name" then S(ColorName(Get(t, k, "rating_color")).value) else Get(t, k, n)
  {
    var names := LookupAll(Column(t, "rating_color"), ColorName).value;
    assert AddColorName(t).value == WithColumn(t, "color_name", names);
    WithColumnGet(t, "color_name", names, k, n);
  }

  /** A successful stage 3 had its three code columns. */
  lemma DerivedColumnsReads(t: Table)
    requires WellFormed(t) && AddDerivedColumns(t).Ok?
    ensures CodesPresent(t.header)
  {
    LabelsDistinct();
    var t1 := AddPriceType(t).value;
    var t2 := AddCountry(t1).value;
    assert "country_code" in t1.header;
    assert "rating_color" in t2.header;
  }

  /** One cell after stage 3, as `DerivedField` of the row it came from. */
  lemma DerivedColumnsCell(t: Table, k: nat, n: string)
    requires WellFormed(t) && AddDerivedColumns(t).Ok? && k < |t.rows|
    requires n in t.header || n in DerivedColumns
    ensures CodesPresent(t.header) && |t.rows[k]| == |t.header| && CodesMapped(t.header, t.rows[k])
    ensures n in AddDerivedColumns(t).value.header
    ensures Get(AddDerivedColumns(t).value, k, n) == DerivedField(t.header, t.rows[k], n)
  {
    DerivedColumnsReads(t);
    LabelsDistinct();
    var t1 := AddPriceType(t).value;
    var t2 := AddCountry(t1).value;
    AddPriceTypeCell(t, k, "country_code");
    AddPriceTypeCell(t, k, "rating_color");
    AddCountryCell(t1, k, "rating_color");
    if n == "price_type" || n in t.header {
      AddPriceTypeCell(t, k, n);
    }
    if n in t1.header || n == "country" {
      AddCountryCell(t1, k, n);
    }
    AddColorNameCell(t2, k, n);
  }

  /** Stage 3 succeeds when the code columns are there and every row's codes
      are mapped. */
  lemma DerivedColumnsSucceed(t: Table)
    requires WellFormed(t) && CodesPresent(t.header)
    requires forall k :: 0 <= k < |t.rows| ==> CodesMapped(t.header, t.rows[k])
    ensures AddDerivedColumns(t).Ok?
  {
    LabelsDistinct();
    var t1 := AddPriceType(t).value;
    forall k | 0 <= k < |t.rows|
      ensures CountryName(Get(t1, k, "country_code")).Ok?
    {
      AddPriceTypeCell(t, k, "country_code");
    }
    var t2 := AddCountry(t1).value;
    forall k | 0 <= k < |t.rows|
      ensures ColorName(Get(t2, k, "rating_color")).Ok?
    {
      AddPriceTypeCell(t, k, "rating_color");
      AddCountryCell(t1, k, "rating_color");
    }
  }

  // ---------------------------------------------------------------------
  // What each stage computes, as a relation between tables

  /** Table `t` is stage 3 applied to the rows `d` under the header `h`. */
  ghost predicate DerivedFrom(h: seq<string>, d: seq<Row>, t: Table) {
    && WellFormed(t) && |t.rows| == |d| && CodesPresent(h)
    && (forall n :: n in t.header <==> n in h || n in DerivedColumns)
    && (forall k :: 0 <= k < |d| ==> |d[k]| == |h| && CodesMapped(h, d[k]))
    && (forall k, n :: 0 <= k < |d| && n in t.header ==> Get(t, k, n) == DerivedField(h, d[k], n))
  }

  /** Table `t` is stages 3 and 4 applied to the rows `d` under the header
      `h`. */
  ghost predicate PreparedFrom(h: seq<string>, d: seq<Row>, t: Table) {
    && WellFormed(t) && |t.rows| == |d| && ReadsPresent(h)
    && (forall n :: n in t.header <==> n in h || n in DerivedColumns)
    && (forall k :: 0 <= k < |d| ==> |d[k]| == |h| && CodesMapped(h, d[k]))
    && (forall k, n :: 0 <= k < |d| && n in t.header ==> Get(t, k, n) == PreparedField(h, d[k], n))
  }

  /** Table `u` is `t.loc[:, cols]`. */
  predicate Projected(t: Table, cols: seq<string>, u: Table) {
    && WellFormed(t) && WellFormed(u) && u.header == cols && |u.rows| == |t.rows|
    && (forall i :: 0 <= i < |cols| ==> cols[i] in t.header)
    && (forall k, i :: 0 <= k < |t.rows| && 0 <= i < |cols| ==> u.rows[k][i] == Get(t, k, cols[i]))
  }

  /** Table `u` is `t` with the columns `names` stripped. */
  predicate StrippedFrom(t: Table, names: seq<string>, u: Table) {
    && WellFormed(t) && WellFormed(u) && u.header == t.header && |u.rows| == |t.rows|
    && (forall k, i :: 0 <= k < |t.rows| && 0 <= i < |t.header| ==>
          u.rows[k][i] == if t.header[i] in names then StripValue(t.rows[k][i]) else t.rows[k][i])
  }

  /** The tables between stage 4 and the output: `t4` after stage 4, `t5`
      after de-duplication, `t6` after projection, `out` after trimming. */
  ghost predicate CleanedVia(h: seq<string>, d: seq<Row>, t4: Table, t5: Table, t6: Table, out: Table) {
    && PreparedFrom(h, d, t4)
    && t5.header == t4.header && WellFormed(t5) && Distinct(t5.rows)
    && (forall row :: row in t5.rows <==> row in t4.rows)
    && Projected(t5, CleanSchema, t6)
    && StrippedFrom(t6, TextColumns, out)
  }

  /** Stage 3 as a relation. */
  lemma DerivedColumnsFacts(t: Table)
    requires WellFormed(t) && AddDerivedColumns(t).Ok?
    ensures DerivedFrom(t.header, t.rows, AddDerivedColumns(t).value)
  {
    var t3 := AddDerivedColumns(t).value;
    DerivedColumnsReads(t);
    forall k | 0 <= k < |t.rows|
      ensures |t.rows[k]| == |t.header| && CodesMapped(t.header, t.rows[k])
    {
      DerivedColumnsCell(t, k, "country");
    }
    forall k, n | 0 <= k < |t.rows| && n in t3.header
      ensures Get(t3, k, n) == DerivedField(t.header, t.rows[k], n)
    {
      DerivedColumnsCell(t, k, n);
    }
  }

  /** One cell after stage 4: `cuisines` holds the text before its first
      comma, every other column what it held. */
  lemma FirstCuisineCell(t: Table, k: nat, n: string)
    requires WellFormed(t) && "cuisines" in t.header && k < |t.rows| && n in t.header
    ensures FirstCuisine(t).Ok?
    ensures n == "cuisines" ==> Get(FirstCuisine(t).value, k, n) == S(BeforeComma(AsText(Get(t, k, n))))
    ensures n != "cuisines" ==> Get(FirstCuisine(t).value, k, n) == Get(t, k, n)
  {
    var raw := Column(t, "cuisines");
    var t1 := WithColumn(t, "cuisines", Texts(raw));
    var pieces := FirstPieces(Column(t1, "cuisines"));
    WithColumnGet(t, "cuisines", Texts(raw), k, n);
    WithColumnGet(t1, "cuisines", pieces, k, n);
  }

  /** Stage 4 as a relation, on top of stage 3. */
  lemma FirstCuisineFacts(h: seq<string>, d: seq<Row>, t: Table)
    requires DerivedFrom(h, d, t) && "cuisines" in t.header
    ensures FirstCuisine(t).Ok? && PreparedFrom(h, d, FirstCuisine(t).value)
  {
    LabelsDistinct();
    var t4 := FirstCuisine(t).value;
    forall k, n | 0 <= k < |d| && n in t4.header
      ensures Get(t4, k, n) == PreparedField(h, d[k], n)
    {
      FirstCuisineCell(t, k, n);
    }
  }

  /** Stage 7 on a header without repeated labels: a listed column holds the
      strip of what it held, every other column is untouched, and the rows
      keep their number and order. */
  lemma {:induction false} StripColumnsCell(t: Table, names: seq<string>, k: nat, i: nat)
    requires WellFormed(t) && Distinct(t.header)
    requires forall m :: 0 <= m < |names| ==> names[m] in t.header
    requires k < |t.rows| && i < |t.header|
    ensures StripColumns(t, names).rows[k][i] ==
      if t.header[i] in names then StripValue(t.rows[k][i]) else t.rows[k][i]
    decreases |names|
  {
    if names != [] {
      var init, last := names[..|names| - 1], names[|names| - 1];
      var s := StripColumns(t, init);
      var col := Stripped(Column(s, last));
      var n := t.header[i];
      StripColumnsCell(t, init, k, i);
      FirstIndexOfDistinct(t.header, i);
      assert StripColumns(t, names) == WithColumn(s, last, col);
      WithColumnGet(s, last, col, k, n);
      assert StripColumns(t, names).rows[k][i] == Get(WithColumn(s, last, col), k, n);
      assert s.rows[k][i] == Get(s, k, n);
      InFrontOrLast(names, n);
      if n == last {
        assert col[k] == StripValue(Get(s, k, n));
        StripValueIdempotent(t.rows[k][i]);
      }
    }
  }

  /** Stage 7 as a relation. */
  lemma StripColumnsFacts(t: Table, names: seq<string>)
    requires WellFormed(t) && Distinct(t.header)
    requires forall m :: 0 <= m < |names| ==> names[m] in t.header
    ensures StrippedFrom(t, names, StripColumns(t, names))
  {
    forall k, i | 0 <= k < |t.rows| && 0 <= i < |t.header|
      ensures StripColumns(t, names).rows[k][i] ==
        if t.header[i] in names then StripValue(t.rows[k][i]) else t.rows[k][i]
    {
      StripColumnsCell(t, names, k, i);
    }
  }

  // ---------------------------------------------------------------------
  // Stages 1 to 4 against the raw rows

  /** The rows that survive `dropna` all have mapped codes exactly when every
      complete raw row has. */
  lemma CompleteRowsMapped(raw: Table, h: seq<string>)
    requires WellFormed(raw) && |h| == |raw.header| && CodesPresent(h)
    ensures (forall m :: 0 <= m < |DropNA(raw).rows| ==> CodesMapped(h, DropNA(raw).rows[m])) <==>
      (forall k :: 0 <= k < |raw.rows| && Complete(raw.rows[k]) ==> CodesMapped(h, raw.rows[k]))
  {
    var d := DropNA(raw).rows;
    if forall m :: 0 <= m < |d| ==> CodesMapped(h, d[m]) {
      forall k | 0 <= k < |raw.rows| && Complete(raw.rows[k])
        ensures CodesMapped(h, raw.rows[k])
      {
        var m :| 0 <= m < |d| && d[m] == raw.rows[k];
      }
    }
    if forall k :: 0 <= k < |raw.rows| && Complete(raw.rows[k]) ==> CodesMapped(h, raw.rows[k]) {
      forall m | 0 <= m < |d|
        ensures CodesMapped(h, d[m])
      {
        var k :| 0 <= k < |raw.rows| && raw.rows[k] == d[m];
      }
    }
  }

  /** Stages 1 to 4 as a relation between the complete raw rows and the
      stage-4 table. */
  lemma PrepareFacts(raw: Table, canon: string -> string)
    requires WellFormed(raw) && Prepare(raw, canon).Ok?
    ensures PreparedFrom(Relabel(raw.header, canon), DropNA(raw).rows, Prepare(raw, canon).value)
  {
    var t2 := RenameColumns(DropNA(raw), canon);
    DerivedColumnsFacts(t2);
    FirstCuisineFacts(t2.header, t2.rows, AddDerivedColumns(t2).value);
  }

  /** Stages 1 to 4 fail exactly when a column they read is absent or a
      complete row holds an unmapped code; a row with a missing value is
      dropped before any lookup, so its codes cannot make the run fail. */
  lemma PrepareSucceedsIff(raw: Table, canon: string -> string)
    requires WellFormed(raw)
    ensures var h := Relabel(raw.header, canon);
      Prepare(raw, canon).Ok? <==>
        ReadsPresent(h) && forall k :: 0 <= k < |raw.rows| && Complete(raw.rows[k]) ==> CodesMapped(h, raw.rows[k])
  {
    var h := Relabel(raw.header, canon);
    var t2 := RenameColumns(DropNA(raw), canon);
    if Prepare(raw, canon).Ok? {
      PrepareFacts(raw, canon);
      CompleteRowsMapped(raw, h);
    } else if ReadsPresent(h) {
      CompleteRowsMapped(raw, h);
      if forall k :: 0 <= k < |raw.rows| && Complete(raw.rows[k]) ==> CodesMapped(h, raw.rows[k]) {
        DerivedColumnsSucceed(t2);
      }
    }
  }

  // ---------------------------------------------------------------------
  // The whole pipeline against the reference

  /** The output `out` is what de-duplication, projection and trimming make
      of some stage-4 table built from the rows `d` under the header `h`. */
  ghost predicate CleanedFrom(h: seq<string>, d: seq<Row>, out: Table) {
    exists t4, t5, t6 :: CleanedVia(h, d, t4, t5, t6, out)
  }

  /** A successful run, stage by stage, as relations. */
  lemma CleanStages(raw: Table, canon: string -> string)
    requires WellFormed(raw) && Clean(raw, canon).Ok?
    ensures CleanedFrom(Relabel(raw.header, canon), DropNA(raw).rows, Clean(raw, canon).value)
  {
    PrepareFacts(raw, canon);
    FinishFacts(Relabel(raw.header, canon), DropNA(raw).rows, Prepare(raw, canon).value);
  }

  /** Stages 5 to 7 of a stage-4 table built from the rows `d`. */
  lemma FinishFacts(h: seq<string>, d: seq<Row>, t4: Table)
    requires PreparedFrom(h, d, t4) && Finish(t4).Ok?
    ensures CleanedFrom(h, d, Finish(t4).value)
  {
    var t5 := DropDuplicates(t4);
    var t6 := Select(t5, CleanSchema).value;
    SchemaFacts();
    StripColumnsFacts(t6, TextColumns);
    assert CleanedVia(h, d, t4, t5, t6, Finish(t4).value);
  }

  /** The projection found every schema column, so the renamed header has
      each column stage 3 does not create. */
  lemma ViaSupports(h: seq<string>, d: seq<Row>, t4: Table, t5: Table, t6: Table, out: Table)
    requires CleanedVia(h, d, t4, t5, t6, out)
    ensures HeaderSupports(h)
  {
    forall i | 0 <= i < |CleanSchema| && CleanSchema[i] !in DerivedColumns
      ensures CleanSchema[i] in h
    {
      assert CleanSchema[i] in t4.header;
    }
  }

  /** Cell `i` of output row `j` is field `i` of the cleaned record of row
      `m`, when de-duplication kept row `m` of stage 4 at position `j`. */
  lemma ViaCell(h: seq<string>, d: seq<Row>, t4: Table, t5: Table, t6: Table, out: Table, j: nat, m: nat, i: nat)
    requires CleanedVia(h, d, t4, t5, t6, out)
    requires j < |t5.rows| && m < |t4.rows| && t5.rows[j] == t4.rows[m] && i < |CleanSchema|
    ensures HeaderSupports(h) && m < |d| && |d[m]| == |h| && CodesMapped(h, d[m])
    ensures j < |out.rows| && |out.rows[j]| == |CleanSchema|
    ensures out.rows[j][i] == RecordField(h, d[m], CleanSchema[i])
  {
    ViaSupports(h, d, t4, t5, t6, out);
    var n := CleanSchema[i];
    RecordFieldFromPrepared(h, d[m], n);
    assert n in t4.header;
    assert t6.rows[j][i] == Get(t5, j, n);
    assert Get(t5, j, n) == Get(t4, m, n);
  }

  /** Output row `j` is the cleaned record of row `m`, when de-duplication
      kept row `m` of stage 4 at position `j`. */
  lemma ViaRow(h: seq<string>, d: seq<Row>, t4: Table, t5: Table, t6: Table, out: Table, j: nat, m: nat)
    requires CleanedVia(h, d, t4, t5, t6, out)
    requires j < |t5.rows| && m < |t4.rows| && t5.rows[j] == t4.rows[m]
    ensures j < |out.rows| && m < |d| && |d[m]| == |h|
    ensures CleanRecord(h, d[m]) == Some(out.rows[j])
  {
    ViaCell(h, d, t4, t5, t6, out, j, m, 0);
    var rec := CleanRecord(h, d[m]).value;
    forall i | 0 <= i < |CleanSchema|
      ensures out.rows[j][i] == rec[i]
    {
      ViaCell(h, d, t4, t5, t6, out, j, m, i);
    }
    assert out.rows[j] == rec;
  }

  /** The header of a cleaned output has every column the records read. */
  lemma FromSupports(h: seq<string>, d: seq<Row>, out: Table)
    requires CleanedFrom(h, d, out)
    ensures HeaderSupports(h)
  {
    var t4, t5, t6 :| CleanedVia(h, d, t4, t5, t6, out);
    ViaSupports(h, d, t4, t5, t6, out);
  }

  /** Every output row is the cleaned record of one of the rows `d`. */
  lemma FromRowsAreRecords(h: seq<string>, d: seq<Row>, out: Table, j: nat)
    requires CleanedFrom(h, d, out) && j < |out.rows|
    ensures exists m :: 0 <= m < |d| && |d[m]| == |h| && CleanRecord(h, d[m]) == Some(out.rows[j])
  {
    var t4, t5, t6 :| CleanedVia(h, d, t4, t5, t6, out);
    assert t5.rows[j] in t4.rows;
    var m :| 0 <= m < |t4.rows| && t4.rows[m] == t5.rows[j];
    ViaRow(h, d, t4, t5, t6, out, j, m);
  }

  /** Every row of `d` has its cleaned record among the output rows. */
  lemma FromKeepsRecords(h: seq<string>, d: seq<Row>, out: Table, m: nat)
    requires CleanedFrom(h, d, out) && m < |d|
    ensures |d[m]| == |h| && CleanRecord(h, d[m]).Some? && CleanRecord(h, d[m]).value in out.rows
  {
    var t4, t5, t6 :| CleanedVia(h, d, t4, t5, t6, out);
    assert t4.rows[m] in t5.rows;
    var j :| 0 <= j < |t5.rows| && t5.rows[j] == t4.rows[m];
    ViaRow(h, d, t4, t5, t6, out, j, m);
  }

  /** Two rows of `d` that differ in a column stages 3 and 4 leave alone are
      two stage-4 rows, and both survive de-duplication; when their cleaned
      records agree, the output repeats a row. */
  lemma FromRepeats(h: seq<string>, d: seq<Row>, out: Table, m1: nat, m2: nat, n: string)
    requires CleanedFrom(h, d, out) && m1 < |d| && m2 < |d|
    requires n in h && n !in DerivedColumns && n != "cuisines"
    requires |d[m1]| == |h| && |d[m2]| == |h| && d[m1][FirstIndex(h, n)] != d[m2][FirstIndex(h, n)]
    requires CleanRecord(h, d[m1]) == CleanRecord(h, d[m2])
    ensures !Distinct(out.rows)
  {
    var t4, t5, t6 :| CleanedVia(h, d, t4, t5, t6, out);
    assert Get(t4, m1, n) == PreparedField(h, d[m1], n);
    assert Get(t4, m2, n) == PreparedField(h, d[m2], n);
    assert t4.rows[m1] != t4.rows[m2];
    assert t4.rows[m1] in t5.rows && t4.rows[m2] in t5.rows;
    var j1 :| 0 <= j1 < |t5.rows| && t5.rows[j1] == t4.rows[m1];
    var j2 :| 0 <= j2 < |t5.rows| && t5.rows[j2] == t4.rows[m2];
    ViaRow(h, d, t4, t5, t6, out, j1, m1);
    ViaRow(h, d, t4, t5, t6, out, j2, m2);
    assert j1 != j2;
    if j1 < j2 {
      assert out.rows[j1] == out.rows[j2];
    } else {
      assert out.rows[j2] == out.rows[j1];
    }
  }

  /** Against the raw table: every output row is the cleaned record of a
      complete raw row. */
  lemma RawRowsAreRecords(raw: Table, h: seq<string>, out: Table, j: nat)
    requires WellFormed(raw) && CleanedFrom(h, DropNA(raw).rows, out) && j < |out.rows|
    ensures exists k :: (0 <= k < |raw.rows| && Complete(raw.rows[k]) && |raw.rows[k]| == |h| &&
      CleanRecord(h, raw.rows[k]) == Some(out.rows[j]))
  {
    var d := DropNA(raw).rows;
    FromRowsAreRecords(h, d, out, j);
    var m :| 0 <= m < |d| && |d[m]| == |h| && CleanRecord(h, d[m]) == Some(out.rows[j]);
    assert d[m] in raw.rows;
    var k :| 0 <= k < |raw.rows| && raw.rows[k] == d[m];
  }

  /** Against the raw table: every complete raw row has its cleaned record
      among the output rows. */
  lemma RawKeepsRecords(raw: Table, h: seq<string>, out: Table, k: nat)
    requires WellFormed(raw) && CleanedFrom(h, DropNA(raw).rows, out)
    requires k < |raw.rows| && Complete(raw.rows[k])
    ensures |raw.rows[k]| == |h| && CleanRecord(h, raw.rows[k]).Some? && CleanRecord(h, raw.rows[k]).value in out.rows
  {
    var d := DropNA(raw).rows;
    assert raw.rows[k] in d;
    var m :| 0 <= m < |d| && d[m] == raw.rows[k];
    FromKeepsRecords(h, d, out, m);
  }

  /** Against the raw table: two complete rows with equal records that
      differ in a kept column make the output repeat a row. */
  lemma RawRepeats(raw: Table, h: seq<string>, out: Table, k1: nat, k2: nat, n: string)
    requires WellFormed(raw) && CleanedFrom(h, DropNA(raw).rows, out) && |h| == |raw.header|
    requires k1 < |raw.rows| && k2 < |raw.rows| && Complete(raw.rows[k1]) && Complete(raw.rows[k2])
    requires n in h && n !in DerivedColumns && n != "cuisines"
    requires raw.rows[k1][FirstIndex(h, n)] != raw.rows[k2][FirstIndex(h, n)]
    requires CleanRecord(h, raw.rows[k1]) == CleanRecord(h, raw.rows[k2])
    ensures !Distinct(out.rows)
  {
    var d := DropNA(raw).rows;
    assert raw.rows[k1] in d && raw.rows[k2] in d;
    var m1 :| 0 <= m1 < |d| && d[m1] == raw.rows[k1];
    var m2 :| 0 <= m2 < |d| && d[m2] == raw.rows[k2];
    FromRepeats(h, d, out, m1, m2, n);
  }

  /** A successful run has the header the cleaned records assume. */
  lemma CleanHeaderSupported(raw: Table, canon: string -> string)
    requires WellFormed(raw) && Clean(raw, canon).Ok?
    ensures HeaderSupports(Relabel(raw.header, canon))
  {
    CleanStages(raw, canon);
    FromSupports(Relabel(raw.header, canon), DropNA(raw).rows, Clean(raw, canon).value);
  }

  /** Every output row is the cleaned record of some complete raw row. */
  lemma CleanRowsAreRecords(raw: Table, canon: string -> string, j: nat)
    requires WellFormed(raw) && Clean(raw, canon).Ok? && j < |Clean(raw, canon).value.rows|
    ensures exists k :: (0 <= k < |raw.rows| && Complete(raw.rows[k]) && |raw.rows[k]| == |raw.header| &&
      CleanRecord(Relabel(raw.header, canon), raw.rows[k]) == Some(Clean(raw, canon).value.rows[j]))
  {
    CleanStages(raw, canon);
    RawRowsAreRecords(raw, Relabel(raw.header, canon), Clean(raw, canon).value, j);
  }

  /** Every complete raw row has its cleaned record in the output. */
  lemma CleanKeepsEveryRecord(raw: Table, canon: string -> string, k: nat)
    requires WellFormed(raw) && Clean(raw, canon).Ok? && k < |raw.rows| && Complete(raw.rows[k])
    ensures CleanRecord(Relabel(raw.header, canon), raw.rows[k]).Some?
    ensures CleanRecord(Relabel(raw.header, canon), raw.rows[k]).value in Clean(raw, canon).value.rows
  {
    CleanStages(raw, canon);
    RawKeepsRecords(raw, Relabel(raw.header, canon), Clean(raw, canon).value, k);
  }

  /** The output has at most one row per complete raw row. */
  lemma CleanRowCount(raw: Table, canon: string -> string)
    requires WellFormed(raw) && Clean(raw, canon).Ok?
    ensures |Clean(raw, canon).value.rows| <= |Filter(raw.rows, Complete)|
  {
  }

  /** `clean_code` succeeds exactly when the renamed header has every column
      it reads and every complete row's codes are mapped, that is, when every
      complete row has a cleaned record. */
  lemma CleanSucceedsIff(raw: Table, canon: string -> string)
    requires WellFormed(raw)
    ensures Clean(raw, canon).Ok? <==>
      && HeaderSupports(Relabel(raw.header, canon))
      && forall k :: 0 <= k < |raw.rows| && Complete(raw.rows[k]) ==>
          CleanRecord(Relabel(raw.header, canon), raw.rows[k]).Some?
  {
    PrepareSucceedsIff(raw, canon);
    if Prepare(raw, canon).Ok? {
      SelectSucceedsIff(raw, canon);
    }
  }

  /** Once stages 1 to 4 succeed, the projection succeeds exactly when the
      renamed header has every schema column stage 3 does not create. */
  lemma SelectSucceedsIff(raw: Table, canon: string -> string)
    requires WellFormed(raw) && Prepare(raw, canon).Ok?
    ensures Clean(raw, canon).Ok? <==>
      forall i :: 0 <= i < |CleanSchema| && CleanSchema[i] !in DerivedColumns ==>
        CleanSchema[i] in Relabel(raw.header, canon)
  {
    var h := Relabel(raw.header, canon);
    var t5 := DropDuplicates(Prepare(raw, canon).value);
    assert Clean(raw, canon).Ok? <==> Select(t5, CleanSchema).Ok?;
    if Select(t5, CleanSchema).Ok? {
      forall i | 0 <= i < |CleanSchema| && CleanSchema[i] !in DerivedColumns
        ensures CleanSchema[i] in h
      {
        assert CleanSchema[i] in t5.header;
      }
    } else {
      var i :| 0 <= i < |CleanSchema| && CleanSchema[i] !in t5.header;
      assert CleanSchema[i] !in h && CleanSchema[i] !in DerivedColumns;
    }
  }

  // ---------------------------------------------------------------------
  // Consequences

  /** Field `name` of a cleaned row, found through the schema. */
  function Field(row: Row, name: string): Value
    requires |row| == |CleanSchema| && name in CleanSchema
  {
    row[FirstIndex(CleanSchema, name)]
  }

  /** What a cleaned row holds: a price tier, a country name of the lookup
      table, a rating colour code of the colour table together with its own
      colour name, and a single trimmed cuisine without a comma. */
  predicate CleanedShape(row: Row) {
    SchemaPositions();
    && |row| == |CleanSchema|
    && Field(row, "price_type").S? && Field(row, "price_type").text in PriceLabels
    && Field(row, "country").S? && Field(row, "country").text in Countries.Values
    && Field(row, "color_name").S? && Field(row, "color_name").text in Colors.Values
    && Field(row, "rating_color").S? && Field(row, "rating_color").text in Colors
    && ColorName(Field(row, "rating_color")) == Ok(Field(row, "color_name").text)
    && Field(row, "cuisines").S? && ',' !in Field(row, "cuisines").text
    && Strip(Field(row, "cuisines").text) == Field(row, "cuisines").text
  }

  /** Field `name` of a cleaned record sits at the schema position of `name`. */
  lemma CleanRecordField(h: seq<string>, r: Row, i: nat)
    requires |r| == |h| && CleanRecord(h, r).Some? && i < |CleanSchema|
    ensures FirstIndex(CleanSchema, CleanSchema[i]) == i
    ensures CleanRecord(h, r).value[i] == RecordField(h, r, CleanSchema[i])
  {
    SchemaFacts();
    FirstIndexOfDistinct(CleanSchema, i);
  }

  /** Every cleaned record has the shape of a cleaned row. */
  lemma RecordShape(h: seq<string>, r: Row)
    requires |r| == |h| && CleanRecord(h, r).Some?
    ensures CleanedShape(CleanRecord(h, r).value)
  {
    var rec := CleanRecord(h, r).value;
    SchemaPositions();
    SchemaFacts();
    LabelsDistinct();
    assert CleanSchema[10] == "price_type" && CleanSchema[2] == "country" && CleanSchema[18] == "color_name";
    assert CleanSchema[17] == "rating_color" && CleanSchema[9] == "cuisines";
    assert rec[17] == RecordField(h, r, "rating_color");
    assert rec[9] == RecordField(h, r, "cuisines");
    var code := r[FirstIndex(h, "rating_color")];
    ColorLookupNeedsTrimmedCode(code.text);
    var piece := BeforeComma(AsText(r[FirstIndex(h, "cuisines")]));
    StripIdempotent(piece);
    if ',' in Strip(piece) {
      StripKeepsOnlyCharsOf(piece, ',');
    }
  }

  /** Every row of a successful run has the shape of a cleaned row. */
  lemma CleanValueDomains(raw: Table, canon: string -> string, j: nat)
    requires WellFormed(raw) && Clean(raw, canon).Ok? && j < |Clean(raw, canon).value.rows|
    ensures CleanedShape(Clean(raw, canon).value.rows[j])
  {
    var h := Relabel(raw.header, canon);
    CleanRowsAreRecords(raw, canon, j);
    var k :| 0 <= k < |raw.rows| && Complete(raw.rows[k]) && |raw.rows[k]| == |raw.header| &&
      CleanRecord(h, raw.rows[k]) == Some(Clean(raw, canon).value.rows[j]);
    RecordShape(h, raw.rows[k]);
  }

  /** The text columns of row `r` hold text. */
  predicate TextIsText(h: seq<string>, r: Row)
    requires |r| == |h|
  {
    forall i :: 0 <= i < |TextColumns| && TextColumns[i] in h ==> r[FirstIndex(h, TextColumns[i])].S?
  }

  /** A complete row has a cleaned record without a missing field, where a
      text field needs the row's text columns to hold text. */
  lemma RecordHasNoMissing(h: seq<string>, r: Row, i: nat)
    requires |r| == |h| && Complete(r) && CleanRecord(h, r).Some? && i < |CleanSchema|
    requires CleanSchema[i] in TextColumns ==> TextIsText(h, r)
    ensures CleanRecord(h, r).value[i] != Missing
  {
    CleanRecordField(h, r, i);
    var n := CleanSchema[i];
    if n in TextColumns {
      var m :| 0 <= m < |TextColumns| && TextColumns[m] == n;
      if n !in DerivedColumns && n != "cuisines" {
        assert n in h;
        assert r[FirstIndex(h, TextColumns[m])].S?;
      }
    } else if n !in DerivedColumns {
      assert n in h;
      assert r[FirstIndex(h, n)] != Missing;
    }
  }

  /** No cleaned cell is missing. For the text columns this needs the text
      columns of the complete raw rows to hold text: a non-text value there
      would become NaN under `str.strip()`. */
  lemma CleanHasNoMissing(raw: Table, canon: string -> string, j: nat, i: nat)
    requires WellFormed(raw) && Clean(raw, canon).Ok? && j < |Clean(raw, canon).value.rows| && i < |CleanSchema|
    requires CleanSchema[i] in TextColumns ==> forall k :: 0 <= k < |raw.rows| && Complete(raw.rows[k]) ==>
      |raw.rows[k]| == |Relabel(raw.header, canon)| && TextIsText(Relabel(raw.header, canon), raw.rows[k])
    ensures Clean(raw, canon).value.rows[j][i] != Missing
  {
    var h := Relabel(raw.header, canon);
    CleanRowsAreRecords(raw, canon, j);
    var k :| 0 <= k < |raw.rows| && Complete(raw.rows[k]) && |raw.rows[k]| == |raw.header| &&
      CleanRecord(h, raw.rows[k]) == Some(Clean(raw, canon).value.rows[j]);
    RecordHasNoMissing(h, raw.rows[k], i);
  }

  /** Duplicates are removed before projection and trimming, so two
      complete rows that differ only in a column the projection drops, or
      only in blanks that stage 7 trims, both survive as equal output rows:
      the cleaned table then has a repeated row. */
  lemma CleanCanRepeatRows(raw: Table, canon: string -> string, k1: nat, k2: nat, n: string)
    requires WellFormed(raw) && Clean(raw, canon).Ok?
    requires k1 < |raw.rows| && k2 < |raw.rows| && Complete(raw.rows[k1]) && Complete(raw.rows[k2])
    requires var h := Relabel(raw.header, canon);
      n in h && n !in DerivedColumns && n != "cuisines" &&
      raw.rows[k1][FirstIndex(h, n)] != raw.rows[k2][FirstIndex(h, n)]
    requires CleanRecord(Relabel(raw.header, canon), raw.rows[k1]) == CleanRecord(Relabel(raw.header, canon), raw.rows[k2])
    ensures !Distinct(Clean(raw, canon).value.rows)
  {
    CleanStages(raw, canon);
    RawRepeats(raw, Relabel(raw.header, canon), Clean(raw, canon).value, k1, k2, n);
  }

  /** The cleaned table cannot be fed back to `clean_code` as it is: its
      header has no `price_range`, so the run stops at stage 3. */
  lemma CleanRerunFails(raw: Table, canon: string -> string)
    requires WellFormed(raw) && Clean(raw, canon).Ok?
    requires forall i :: 0 <= i < |CleanSchema| ==> canon(CleanSchema[i]) == CleanSchema[i]
    ensures Clean(Clean(raw, canon).value, canon) == Err(MissingColumn("price_range"))
  {
    var out := Clean(raw, canon).value;
    assert Relabel(out.header, canon) == CleanSchema;
    SchemaLacksCodes();
  }

  /** A raw row with country code 30, price range 3, colour "3F7E00" and
      cuisines "Italian, Pizza" becomes a Brazilian, expensive, dark green,
      Italian record. */
  lemma ScenarioRecord(h: seq<string>, r: Row)
    requires |r| == |h| && HeaderSupports(h)
    requires r[FirstIndex(h, "country_code")] == I(30) && r[FirstIndex(h, "price_range")] == I(3)
    requires r[FirstIndex(h, "rating_color")] == S("3F7E00") && r[FirstIndex(h, "cuisines")] == S("Italian, Pizza")
    ensures CleanRecord(h, r).Some?
    ensures RecordField(h, r, "country") == S("Brazil")
    ensures RecordField(h, r, "price_type") == S("expensive")
    ensures RecordField(h, r, "color_name") == S("darkgreen")
    ensures RecordField(h, r, "cuisines") == S("Italian")
  {
    assert Cell(h, r, "country_code") == I(30) && Cell(h, r, "price_range") == I(3);
    assert Cell(h, r, "rating_color") == S("3F7E00") && Cell(h, r, "cuisines") == S("Italian, Pizza");
    ExampleLookups();
    ExampleCuisine();
  }

  /** The run fails as soon as one complete row holds a code that a lookup
      table lacks, e.g. `country_code` 999. */
  lemma CleanFailsOnUnmappedCode(raw: Table, canon: string -> string, k: nat)
    requires WellFormed(raw) && k < |raw.rows| && Complete(raw.rows[k])
    requires ReadsPresent(Relabel(raw.header, canon))
    requires !CodesMapped(Relabel(raw.header, canon), raw.rows[k])
    ensures Clean(raw, canon).Err?
  {
    CleanSucceedsIff(raw, canon);
  }

  /** The colour is looked up on the untrimmed `rating_color`: a complete row
      whose code has a blank at either end makes the run fail, although
      stage 7 would trim that very cell. */
  lemma CleanFailsOnUntrimmedColor(raw: Table, canon: string -> string, k: nat, code: string)
    requires WellFormed(raw) && k < |raw.rows| && Complete(raw.rows[k])
    requires ReadsPresent(Relabel(raw.header, canon))
    requires raw.rows[k][FirstIndex(Relabel(raw.header, canon), "rating_color")] == S(code)
    requires Strip(code) != code
    ensures Clean(raw, canon).Err?
  {
    if ColorName(S(code)).Ok? {
      ColorLookupNeedsTrimmedCode(code);
    }
    CleanFailsOnUnmappedCode(raw, canon, k);
  }

  /** A row with a missing value changes nothing, whatever its codes. */
  lemma CleanIgnoresIncompleteRow(header: seq<string>, rows: seq<Row>, r: Row, canon: string -> string)
    requires WellFormed(Table(header, rows)) && |r| == |header| && !Complete(r)
    ensures WellFormed(Table(header, rows + [r]))
    ensures Clean(Table(header, rows + [r]), canon) == Clean(Table(header, rows), canon)
  {
    assert (rows + [r])[..|rows|] == rows;
    assert DropNA(Table(header, rows + [r])) == DropNA(Table(header, rows));
  }
}
