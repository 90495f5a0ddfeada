/**
 * The tabular values the pipeline passes around: a pandas DataFrame seen as an
 * ordered list of column names and a sequence of rows, each row mapping column
 * names to cells.
 */
module Tables {
  import Json

  /** A pandas datetime64[ns] value: nanoseconds since the epoch, or NaT. */
  datatype Time = Known(nanos: int) | Unparsed

  /** One cell: a missing value (None/NaN/NaT before coercion), a string, an
      integer, a datetime, or any other decoded value carried unchanged. */
  datatype Cell =
    | Null
    | Str(s: string)
    | Int(i: int)
    | Temporal(t: Time)
    | Opaque(value: Json.Value)

  type Row = map<string, Cell>

  datatype Table = Table(columns: seq<string>, rows: seq<Row>)

  /** pd.DataFrame(): no columns and no rows. */
  const Empty := Table([], [])

  /** The time column: the shipping adapter produces it and the transform
      coerces it and joins on it. */
  const TIMESTAMP := "timestamp"

  /** DataFrame.empty: true when either axis has length zero. */
  predicate IsEmpty(t: Table): (b: bool)
    ensures b <==> t.columns == [] || t.rows == []
    ensures t == Empty ==> b
  {
    |t.columns| == 0 || |t.rows| == 0
  }

  function ColumnSet(cols: seq<string>): set<string> {
    set c | c in cols
  }

  predicate Distinct(cols: seq<string>) {
    forall i, j :: 0 <= i < j < |cols| ==> cols[i] != cols[j]
  }

  lemma ColumnSetAppend(a: seq<string>, b: seq<string>)
    ensures ColumnSet(a + b) == ColumnSet(a) + ColumnSet(b)
  {
    assert forall c :: c in a + b <==> c in a || c in b;
  }

  lemma DistinctCons(c: string, cols: seq<string>)
    requires c !in cols && Distinct(cols)
    ensures Distinct([c] + cols)
  {
    var r := [c] + cols;
    assert forall j :: 1 <= j < |r| ==> r[j] == cols[j - 1];
  }

  lemma DistinctAppend(a: seq<string>, b: seq<string>)
    requires Distinct(a) && Distinct(b)
    requires forall c :: c in a ==> c !in b
    ensures Distinct(a + b)
  {
    var r := a + b;
    forall i, j | 0 <= i < j < |r| ensures r[i] != r[j] {
      if j < |a| {
      } else if i >= |a| {
        assert r[i] == b[i - |a|] && r[j] == b[j - |a|];
      } else {
        assert r[i] == a[i] && r[j] == b[j - |a|] && r[j] in b;
      }
    }
  }

  /** What pandas keeps true of every frame: distinct column names, and every
      row holds a cell for exactly the table's columns. */
  predicate WellFormed(t: Table) {
    && Distinct(t.columns)
    && forall k :: 0 <= k < |t.rows| ==> t.rows[k].Keys == ColumnSet(t.columns)
  }

  /** The cell of a row in a column; Null where the row has no such cell
      (which a well-formed table never has for one of its columns). */
  function Get(r: Row, c: string): Cell {
    if c in r then r[c] else Null
  }

  /** df[c] as a sequence of cells, in row order. */
  function Cells(t: Table, c: string): (cells: seq<Cell>)
    ensures |cells| == |t.rows|
    ensures forall k :: 0 <= k < |t.rows| && c in t.rows[k] ==> cells[k] == t.rows[k][c]
  {
    seq(|t.rows|, k requires 0 <= k < |t.rows| => Get(t.rows[k], c))
  }

  /** df[c] = cells: replaces the column in place, or appends it as the last
      column when the frame has none of that name. */
  function WithColumn(t: Table, c: string, cells: seq<Cell>): (r: Table)
    requires |cells| == |t.rows|
    ensures c in t.columns ==> r.columns == t.columns
    ensures c !in t.columns ==> r.columns == t.columns + [c]
    ensures |r.rows| == |t.rows|
    ensures forall k :: 0 <= k < |t.rows| ==>
      && r.rows[k].Keys == t.rows[k].Keys + {c}
      && r.rows[k][c] == cells[k]
      && forall d :: d in t.rows[k] && d != c ==> r.rows[k][d] == t.rows[k][d]
  {
    Table(if c in t.columns then t.columns else t.columns + [c],
          seq(|t.rows|, k requires 0 <= k < |t.rows| => t.rows[k][c := cells[k]]))
  }

  lemma WithColumnWellFormed(t: Table, c: string, cells: seq<Cell>)
    requires |cells| == |t.rows|
    requires WellFormed(t)
    ensures WellFormed(WithColumn(t, c, cells))
  {
    var r := WithColumn(t, c, cells);
    assert ColumnSet(r.columns) == ColumnSet(t.columns) + {c};
  }

  predicate NoNulls(t: Table) {
    forall k, c :: 0 <= k < |t.rows| && c in t.rows[k] ==> t.rows[k][c] != Null
  }

  function FillCell(c: Cell, v: Cell): Cell {
    if c == Null then v else c
  }

  function FillRow(r: Row, v: Cell): Row {
    map c | c in r :: FillCell(r[c], v)
  }

  /** df.fillna(v): every missing cell becomes v; nothing else changes. */
  function Filled(t: Table, v: Cell): (r: Table)
    ensures r.columns == t.columns && |r.rows| == |t.rows|
    ensures forall k :: 0 <= k < |t.rows| ==> r.rows[k].Keys == t.rows[k].Keys
    ensures forall k, c :: 0 <= k < |t.rows| && c in t.rows[k] && t.rows[k][c] == Null ==> r.rows[k][c] == v
    ensures forall k, c :: 0 <= k < |t.rows| && c in t.rows[k] && t.rows[k][c] != Null ==>
      r.rows[k][c] == t.rows[k][c]
    ensures v != Null ==> NoNulls(r)
    ensures WellFormed(t) ==> WellFormed(r)
  {
    Table(t.columns, seq(|t.rows|, k requires 0 <= k < |t.rows| => FillRow(t.rows[k], v)))
  }

  /** A pandas DataFrame that the pipeline updates in place. */
  class Frame {
    var columns: seq<string>
    var rows: seq<Row>

    function Value(): Table
      reads this
    {
      Table(columns, rows)
    }

    constructor (t: Table)
      ensures Value() == t
    {
      columns, rows := t.columns, t.rows;
    }

    /** df[c] = cells */
    method Assign(c: string, cells: seq<Cell>)
      requires |cells| == |rows|
      modifies this
      ensures Value() == WithColumn(old(Value()), c, cells)
      ensures WellFormed(old(Value())) ==> WellFormed(Value())
    {
      if c !in columns {
        columns := columns + [c];
      }
      var prior := rows;
      rows := seq(|prior|, k requires 0 <= k < |prior| => prior[k][c := cells[k]]);
      WithColumnWellFormedIfValid(old(Value()), c, cells);
    }

    /** df.fillna(v, inplace=True) */
    method FillNa(v: Cell)
      modifies this
      ensures Value() == Filled(old(Value()), v)
    {
      var prior := rows;
      rows := seq(|prior|, k requires 0 <= k < |prior| => FillRow(prior[k], v));
    }
  }

  lemma WithColumnWellFormedIfValid(t: Table, c: string, cells: seq<Cell>)
    requires |cells| == |t.rows|
    ensures WellFormed(t) ==> WellFormed(WithColumn(t, c, cells))
  {
    if WellFormed(t) {
      WithColumnWellFormed(t, c, cells);
    }
  }
}
