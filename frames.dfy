/** `clean_code` as the statements it runs on DataFrame objects. `dropna`,
    `copy`, `drop_duplicates` and `.loc[:, cols]` produce new frames; the
    column assignments of stages 3, 4 and 7 and the `columns` assignment of
    `rename_columns` update a frame in place. Every method is tied to the
    table function of its stage, so the whole run computes `Clean`. */
module Frames {
  import opened Values
  import opened Seqs
  import opened Lookups
  import opened Tables
  import opened Pipeline
  import opened Queries

  /** A pandas DataFrame object: the labels and the rows it holds now. */
  class DataFrame {
    var header: seq<string>
    var rows: seq<Row>

    /** What the frame holds, as a table value. */
    function Contents(): Table
      reads this
    {
      Table(header, rows)
    }

    constructor (t: Table)
      ensures Contents() == t
    {
      header := t.header;
      rows := t.rows;
    }

    /** `df.copy()`: a new frame with the same contents. */
    method Copy() returns (c: DataFrame)
      ensures fresh(c) && c.Contents() == Contents()
    {
      c := new DataFrame(Contents());
    }

    /** `df[name] = col` and `df.loc[:, name] = col`: overwrites the column
        `name`, or appends it when the frame has no such label. */
    method SetColumn(name: string, col: seq<Value>)
      requires WellFormed(Contents()) && |col| == |rows|
      modifies this
      ensures Contents() == WithColumn(old(Contents()), name, col)
      ensures WellFormed(Contents()) && |rows| == |old(rows)|
    {
      var t := WithColumn(Contents(), name, col);
      header, rows := t.header, t.rows;
    }

    /** `df.columns = labels`: one new label per column, the rows as they
        were. */
    method SetLabels(labels: seq<string>)
      requires |labels| == |header|
      modifies this
      ensures header == labels && rows == old(rows)
      ensures WellFormed(old(Contents())) ==> WellFormed(Contents())
    {
      header := labels;
    }
  }

  // ---------------------------------------------------------------------
  // Stages 1 and 2: new frames

  /** `df1 = df1.dropna()` */
  method DropNAFrame(df: DataFrame) returns (r: DataFrame)
    requires WellFormed(df.Contents())
    ensures fresh(r) && r.Contents() == DropNA(df.Contents())
  {
    r := new DataFrame(DropNA(df.Contents()));
  }

  /** `rename_columns`: a copy of the frame whose labels are set to the
      canonical form of the old ones; the argument is left as it was. */
  method RenameColumnsFrame(df: DataFrame, canon: string -> string) returns (r: DataFrame)
    ensures fresh(r) && r.Contents() == RenameColumns(df.Contents(), canon)
    ensures unchanged(df)
  {
    r := df.Copy();
    r.SetLabels(Relabel(r.header, canon));
  }

  // ---------------------------------------------------------------------
  // Stages 3 and 4: column assignments in place

  /** `df1['price_type'] = ...`, `df1["country"] = ...` and
      `df1["color_name"] = ...`, in that order; a label the frame lacks, or
      a code a lookup lacks, raises and ends the run. */
  method AddDerivedInPlace(df: DataFrame) returns (r: Result<()>)
    requires WellFormed(df.Contents())
    modifies df
    ensures r.Ok? <==> AddDerivedColumns(old(df.Contents())).Ok?
    ensures r.Ok? ==> df.Contents() == AddDerivedColumns(old(df.Contents())).value
    ensures r.Err? ==> r.error == AddDerivedColumns(old(df.Contents())).error
  {
    var ranges :- ColumnNamed(df.Contents(), "price_range");
    df.SetColumn("price_type", PriceTypes(ranges));
    var codes :- ColumnNamed(df.Contents(), "country_code");
    var countries :- LookupAll(codes, CountryName);
    df.SetColumn("country", countries);
    var colors :- ColumnNamed(df.Contents(), "rating_color");
    var names :- LookupAll(colors, ColorName);
    df.SetColumn("color_name", names);
    r := Ok(());
  }

  /** `df1['cuisines'] = df1['cuisines'].astype(str)` and then
      `df1['cuisines'] = ...split(",")[0]`. */
  method FirstCuisineInPlace(df: DataFrame) returns (r: Result<()>)
    requires WellFormed(df.Contents())
    modifies df
    ensures r.Ok? <==> FirstCuisine(old(df.Contents())).Ok?
    ensures r.Ok? ==> df.Contents() == FirstCuisine(old(df.Contents())).value
    ensures r.Err? ==> r.error == FirstCuisine(old(df.Contents())).error
  {
    var raw :- ColumnNamed(df.Contents(), "cuisines");
    df.SetColumn("cuisines", Texts(raw));
    df.SetColumn("cuisines", FirstPieces(Column(df.Contents(), "cuisines")));
    r := Ok(());
  }

  /** Stages 1 to 4 on frames. */
  method PrepareFrame(df: DataFrame, canon: string -> string) returns (r: Result<DataFrame>)
    requires WellFormed(df.Contents())
    ensures r.Ok? <==> Prepare(df.Contents(), canon).Ok?
    ensures r.Ok? ==> fresh(r.value) && r.value.Contents() == Prepare(df.Contents(), canon).value
    ensures r.Err? ==> r.error == Prepare(df.Contents(), canon).error
  {
    var d1 := DropNAFrame(df);
    var d2 := RenameColumnsFrame(d1, canon);
    var derived := AddDerivedInPlace(d2);
    if derived.Err? {
      return Err(derived.error);
    }
    var cut := FirstCuisineInPlace(d2);
    if cut.Err? {
      return Err(cut.error);
    }
    r := Ok(d2);
  }

  // ---------------------------------------------------------------------
  // Stages 5 and 6: new frames

  /** `df1 = df1.drop_duplicates()` */
  method DropDuplicatesFrame(df: DataFrame) returns (r: DataFrame)
    requires WellFormed(df.Contents())
    ensures fresh(r) && r.Contents() == DropDuplicates(df.Contents())
  {
    r := new DataFrame(DropDuplicates(df.Contents()));
  }

  /** `adjust_columns_order`: `.loc[:, new_cols_order]` of a copy, a
      KeyError when one of the 21 labels is absent. */
  method AdjustColumnsOrder(df: DataFrame) returns (r: Result<DataFrame>)
    requires WellFormed(df.Contents())
    ensures r.Ok? <==> Select(df.Contents(), CleanSchema).Ok?
    ensures r.Ok? ==> fresh(r.value) && r.value.Contents() == Select(df.Contents(), CleanSchema).value
    ensures r.Err? ==> r.error == Select(df.Contents(), CleanSchema).error
    ensures unchanged(df)
  {
    var c := df.Copy();
    var t :- Select(c.Contents(), CleanSchema);
    var f := new DataFrame(t);
    r := Ok(f);
  }

  // ---------------------------------------------------------------------
  // Stage 7: trimming in place

  /** `df1.loc[:, name] = df1.loc[:, name].str.strip()` */
  method StripInPlace(df: DataFrame, name: string)
    requires WellFormed(df.Contents()) && name in df.header
    modifies df
    ensures df.Contents() == StripColumn(old(df.Contents()), name)
  {
    df.SetColumn(name, Stripped(Column(df.Contents(), name)));
  }

  /** Stripping one more name of a list continues the stripping of its prefix. */
  lemma StripColumnsStep(t: Table, names: seq<string>, m: nat)
    requires WellFormed(t) && m < |names| && forall i :: 0 <= i < |names| ==> names[i] in t.header
    ensures StripColumns(t, names[..m + 1]) == StripColumn(StripColumns(t, names[..m]), names[m])
  {
    assert names[..m + 1][..m] == names[..m];
  }

  /** The eleven stripping statements, one per label of `TextColumns`, in
      their order. */
  method StripTextColumns(df: DataFrame)
    requires WellFormed(df.Contents()) && df.header == CleanSchema
    modifies df
    ensures df.Contents() == StripColumns(old(df.Contents()), TextColumns)
  {
    SchemaFacts();
    ghost var t6 := df.Contents();
    for m := 0 to |TextColumns|
      invariant df.Contents() == StripColumns(t6, TextColumns[..m])
    {
      StripInPlace(df, TextColumns[m]);
      StripColumnsStep(t6, TextColumns, m);
    }
    assert TextColumns[..|TextColumns|] == TextColumns;
  }

  // ---------------------------------------------------------------------
  // The whole run

  /** Stages 5 to 7 on frames: `drop_duplicates`, `adjust_columns_order`
      and the eleven strips. */
  method FinishFrame(df: DataFrame) returns (r: Result<DataFrame>)
    requires WellFormed(df.Contents())
    ensures r.Ok? <==> Finish(df.Contents()).Ok?
    ensures r.Ok? ==> fresh(r.value) && r.value.Contents() == Finish(df.Contents()).value
    ensures r.Err? ==> r.error == Finish(df.Contents()).error
    ensures unchanged(df)
  {
    var t5 := DropDuplicatesFrame(df);
    var t6 :- AdjustColumnsOrder(t5);
    StripTextColumns(t6);
    r := Ok(t6);
  }

  /** `clean_code(df1)`: a new frame holding `Clean` of the argument, or the
      error of the first stage that raises; the argument is not modified. */
  method CleanCode(df: DataFrame, canon: string -> string) returns (r: Result<DataFrame>)
    requires WellFormed(df.Contents())
    ensures r.Ok? <==> Clean(df.Contents(), canon).Ok?
    ensures r.Ok? ==> fresh(r.value) && r.value.Contents() == Clean(df.Contents(), canon).value
    ensures r.Err? ==> r.error == Clean(df.Contents(), canon).error
    ensures unchanged(df)
  {
    var t4 :- PrepareFrame(df, canon);
    r := FinishFrame(t4);
  }

  /** Home's `df1 = df1.loc[linhas_selecionadas, :]`: the name is rebound to
      a new frame of the selected rows. */
  method FilterFrame(df: DataFrame, options: seq<string>) returns (r: DataFrame)
    requires WellFormed(df.Contents()) && "country" in df.header
    ensures fresh(r) && r.Contents() == FilterCountries(df.Contents(), options)
    ensures unchanged(df)
  {
    r := new DataFrame(FilterCountries(df.Contents(), options));
  }
}
