/** A pandas DataFrame as a value: a header of column labels and a sequence
    of rows, one cell per label. Labels are resolved to their first
    occurrence. The operations here are the DataFrame calls `clean_code`
    makes: `dropna`, the `columns` assignment, column reads and writes,
    `drop_duplicates` and `.loc[:, labels]`. */
module Tables {
  import opened Values
  import opened Seqs

  type Row = seq<Value>

  datatype Table = Table(header: seq<string>, rows: seq<Row>)

  /** A DataFrame is rectangular: every row has one cell per column. */
  predicate WellFormed(t: Table) {
    forall k :: 0 <= k < |t.rows| ==> |t.rows[k]| == |t.header|
  }

  /** A row without any missing cell. */
  predicate Complete(r: Row) {
    forall j :: 0 <= j < |r| ==> r[j] != Missing
  }

  /** `df.dropna()`: the complete rows, in their order. */
  function DropNA(t: Table): (r: Table)
    requires WellFormed(t)
    ensures r.header == t.header && WellFormed(r)
    ensures forall k :: 0 <= k < |r.rows| ==> Complete(r.rows[k]) && r.rows[k] in t.rows
    ensures forall row :: row in t.rows && Complete(row) ==> row in r.rows
  {
    var kept := Filter(t.rows, Complete);
    assert forall k :: 0 <= k < |kept| ==> kept[k] in kept;
    Table(t.header, kept)
  }

  /** The header after renaming every label with `canon`. */
  function Relabel(header: seq<string>, canon: string -> string): (r: seq<string>)
    ensures |r| == |header|
    ensures forall i :: 0 <= i < |header| ==> r[i] == canon(header[i])
  {
    if header == [] then []
    else Relabel(header[..|header| - 1], canon) + [canon(header[|header| - 1])]
  }

  /** `df.columns = [...]` on a copy: the labels change, nothing else does. */
  function RenameColumns(t: Table, canon: string -> string): (r: Table)
    ensures |r.header| == |t.header| && r.rows == t.rows
    ensures forall i :: 0 <= i < |t.header| ==> r.header[i] == canon(t.header[i])
    ensures WellFormed(t) ==> WellFormed(r)
  {
    Table(Relabel(t.header, canon), t.rows)
  }

  /** The cell of row `k` under label `name`. */
  function Get(t: Table, k: nat, name: string): Value
    requires WellFormed(t) && k < |t.rows| && name in t.header
  {
    t.rows[k][FirstIndex(t.header, name)]
  }

  /** Cell `j` of every row. */
  function CellsAt(rows: seq<Row>, j: nat): (col: seq<Value>)
    requires forall k :: 0 <= k < |rows| ==> j < |rows[k]|
    ensures |col| == |rows|
    ensures forall k :: 0 <= k < |rows| ==> col[k] == rows[k][j]
  {
    if rows == [] then []
    else CellsAt(rows[..|rows| - 1], j) + [rows[|rows| - 1][j]]
  }

  /** The column under `name`, when `name` is a label. */
  function Column(t: Table, name: string): (col: seq<Value>)
    requires WellFormed(t) && name in t.header
    ensures |col| == |t.rows|
    ensures forall k :: 0 <= k < |t.rows| ==> col[k] == Get(t, k, name)
  {
    CellsAt(t.rows, FirstIndex(t.header, name))
  }

  /** `df[name]` / `df.loc[:, name]`: the column, or a KeyError. */
  function ColumnNamed(t: Table, name: string): (r: Result<seq<Value>>)
    requires WellFormed(t)
    ensures r.Ok? <==> name in t.header
    ensures r.Ok? ==> r.value == Column(t, name)
    ensures r.Err? ==> r.error == MissingColumn(name)
  {
    if name in t.header then Ok(Column(t, name)) else Err(MissingColumn(name))
  }

  /** Every row with cell `j` replaced by the matching cell of `col`. */
  function ReplaceCells(rows: seq<Row>, j: nat, col: seq<Value>): (r: seq<Row>)
    requires |col| == |rows| && forall k :: 0 <= k < |rows| ==> j < |rows[k]|
    ensures |r| == |rows|
    ensures forall k :: 0 <= k < |rows| ==> r[k] == rows[k][j := col[k]]
  {
    if rows == [] then []
    else
      var n := |rows| - 1;
      ReplaceCells(rows[..n], j, col[..n]) + [rows[n][j := col[n]]]
  }

  /** Every row extended with the matching cell of `col`. */
  function AppendCells(rows: seq<Row>, col: seq<Value>): (r: seq<Row>)
    requires |col| == |rows|
    ensures |r| == |rows|
    ensures forall k :: 0 <= k < |rows| ==> r[k] == rows[k] + [col[k]]
  {
    if rows == [] then []
    else
      var n := |rows| - 1;
      AppendCells(rows[..n], col[..n]) + [rows[n] + [col[n]]]
  }

  /** `df[name] = col`: overwrite the column when the label exists, append
      a new last column otherwise. */
  function WithColumn(t: Table, name: string, col: seq<Value>): (r: Table)
    requires WellFormed(t) && |col| == |t.rows|
    ensures WellFormed(r) && |r.rows| == |t.rows|
    ensures name in t.header ==> r.header == t.header
    ensures name !in t.header ==> r.header == t.header + [name]
  {
    if name in t.header then
      Table(t.header, ReplaceCells(t.rows, FirstIndex(t.header, name), col))
    else
      Table(t.header + [name], AppendCells(t.rows, col))
  }

  /** After `df[name] = col`, the column `name` holds `col` and every other
      label still holds what it held. */
  lemma WithColumnGet(t: Table, name: string, col: seq<Value>, k: nat, n: string)
    requires WellFormed(t) && |col| == |t.rows| && k < |t.rows|
    requires n == name || n in t.header
    ensures n in WithColumn(t, name, col).header
    ensures n == name ==> Get(WithColumn(t, name, col), k, n) == col[k]
    ensures n != name ==> Get(WithColumn(t, name, col), k, n) == Get(t, k, n)
  {
    var r := WithColumn(t, name, col);
    if name !in t.header {
      if n == name {
        FirstIndexUnique(r.header, |t.header|);
      } else {
        FirstIndexSnoc(t.header, name, n);
      }
    }
  }

  /** `df.drop_duplicates()`: whole-row comparison over every column, first
      occurrence kept, survivors in their order. */
  function DropDuplicates(t: Table): (r: Table)
    requires WellFormed(t)
    ensures r.header == t.header && WellFormed(r)
    ensures Distinct(r.rows)
    ensures forall row :: row in r.rows <==> row in t.rows
  {
    var d := Dedup(t.rows);
    assert forall k :: 0 <= k < |d| ==> d[k] in d;
    Table(t.header, d)
  }

  /** `drop_duplicates` lists the surviving rows in the order of their first
      occurrence. */
  lemma DropDuplicatesOrder(t: Table)
    requires WellFormed(t)
    ensures forall i, j :: 0 <= i < j < |DropDuplicates(t).rows| ==>
      FirstIndex(t.rows, DropDuplicates(t).rows[i]) < FirstIndex(t.rows, DropDuplicates(t).rows[j])
  {
    DedupFirstAppearance(t.rows);
  }

  /** The positions of the labels `cols`, or the first label that is not
      there. */
  function Positions(header: seq<string>, cols: seq<string>): (r: Result<seq<nat>>)
    ensures r.Ok? <==> forall i :: 0 <= i < |cols| ==> cols[i] in header
    ensures r.Ok? ==> |r.value| == |cols|
    ensures r.Ok? ==> forall i :: 0 <= i < |cols| ==> cols[i] in header && r.value[i] == FirstIndex(header, cols[i])
    ensures r.Err? ==> exists i :: 0 <= i < |cols| && cols[i] !in header && r.error == MissingColumn(cols[i])
  {
    if cols == [] then Ok([])
    else if cols[0] !in header then Err(MissingColumn(cols[0]))
    else
      var rest :- Positions(header, cols[1..]);
      Ok([FirstIndex(header, cols[0])] + rest)
  }

  /** `df.loc[:, cols]`: the columns `cols`, in that order, or a KeyError
      when one of them is absent. */
  function Select(t: Table, cols: seq<string>): (r: Result<Table>)
    requires WellFormed(t)
    ensures r.Ok? <==> forall i :: 0 <= i < |cols| ==> cols[i] in t.header
    ensures r.Ok? ==> r.value.header == cols && WellFormed(r.value) && |r.value.rows| == |t.rows|
    ensures r.Ok? ==> forall k, i :: 0 <= k < |t.rows| && 0 <= i < |cols| ==>
      r.value.rows[k][i] == Get(t, k, cols[i])
    ensures r.Err? ==> exists i :: 0 <= i < |cols| && cols[i] !in t.header && r.error == MissingColumn(cols[i])
  {
    var ps :- Positions(t.header, cols);
    Ok(Table(cols, PickAll(t.rows, ps)))
  }

  /** The cells of `row` at the positions `ps`, in that order. */
  function Pick(row: Row, ps: seq<nat>): (r: Row)
    requires forall i :: 0 <= i < |ps| ==> ps[i] < |row|
    ensures |r| == |ps|
    ensures forall i :: 0 <= i < |ps| ==> r[i] == row[ps[i]]
  {
    if ps == [] then []
    else Pick(row, ps[..|ps| - 1]) + [row[ps[|ps| - 1]]]
  }

  /** `Pick` on every row. */
  function PickAll(rows: seq<Row>, ps: seq<nat>): (r: seq<Row>)
    requires forall k, i :: 0 <= k < |rows| && 0 <= i < |ps| ==> ps[i] < |rows[k]|
    ensures |r| == |rows|
    ensures forall k :: 0 <= k < |rows| ==> r[k] == Pick(rows[k], ps)
  {
    if rows == [] then []
    else PickAll(rows[..|rows| - 1], ps) + [Pick(rows[|rows| - 1], ps)]
  }

  /** Selecting works row by row: equal rows select to equal rows. */
  lemma SelectRowwise(h: seq<string>, a: seq<Row>, b: seq<Row>, cols: seq<string>, i: nat, j: nat)
    requires WellFormed(Table(h, a)) && WellFormed(Table(h, b))
    requires i < |a| && j < |b| && a[i] == b[j]
    requires Select(Table(h, a), cols).Ok?
    ensures Select(Table(h, b), cols).Ok?
    ensures Select(Table(h, a), cols).value.rows[i] == Select(Table(h, b), cols).value.rows[j]
  {
    var ra := Select(Table(h, a), cols).value.rows[i];
    var rb := Select(Table(h, b), cols).value.rows[j];
    assert |ra| == |rb| == |cols|;
    forall c | 0 <= c < |cols|
      ensures ra[c] == rb[c]
    {
      assert ra[c] == Get(Table(h, a), i, cols[c]);
      assert rb[c] == Get(Table(h, b), j, cols[c]);
    }
  }
}
