/**
 * transform_data: the merge engine.  Run and Transform state what it computes
 * from the three input frames; ShippingAfter, CustomsAfter and WarehouseAfter
 * state what it leaves in the caller's frames, which it updates in place; the
 * method TransformData performs it step by step on Frame objects.
 */
module MergeEngine {
  import opened Tables
  import opened Merge

  const DATE := "Date"
  const LAST_UPDATED := "last_updated"
  const SHIPMENT_ID := "shipment_id"
  /** The sentinel that fillna writes into every remaining missing cell. */
  const FILL := "N/A"
  /** What astype(str) makes of a missing datetime. */
  const NAT := "NaT"

  /** An exception raised inside the try block, which the handler turns into
      an empty frame. */
  datatype Fault =
    | MissingColumn(name: string)   // KeyError on df[name]
    | AmbiguousKey(name: string)    // KeyError in the second merge: both sides' key columns were suffixed

  datatype Outcome =
    | Skipped                       // some input was empty: the guard returned before the try block
    | Faulted(fault: Fault)
    | Merged(table: Table)

  /** pd.to_datetime(x, errors='coerce') on one cell: a missing value becomes
      NaT, a datetime stays as it is, anything else goes through the parser,
      which yields Unparsed for what it cannot read. */
  function ToDatetime(parse: Cell -> Time, c: Cell): (r: Time)
    ensures c.Null? ==> r == Unparsed
    ensures c.Temporal? ==> r == c.t
    ensures !c.Null? && !c.Temporal? ==> r == parse(c)
  {
    match c
    case Null => Unparsed
    case Temporal(t) => t
    case _ => parse(c)
  }

  function ToDatetimeColumn(cells: seq<Cell>, parse: Cell -> Time): (r: seq<Cell>)
    ensures |r| == |cells|
  {
    seq(|cells|, k requires 0 <= k < |cells| => Temporal(ToDatetime(parse, cells[k])))
  }

  /** df[c] = pd.to_datetime(df[c], errors='coerce') */
  function Coerced(t: Table, c: string, parse: Cell -> Time): (r: Table)
    ensures c in t.columns ==> r.columns == t.columns
    ensures |r.rows| == |t.rows|
    ensures forall k :: 0 <= k < |t.rows| ==>
      && r.rows[k].Keys == t.rows[k].Keys + {c}
      && r.rows[k][c] == Temporal(ToDatetime(parse, Get(t.rows[k], c)))
      && forall d :: d in t.rows[k] && d != c ==> r.rows[k][d] == t.rows[k][d]
  {
    WithColumn(t, c, ToDatetimeColumn(Cells(t, c), parse))
  }

  /** The values of range(1, n + 1). */
  function Ids(n: nat): (ids: seq<Cell>)
    ensures |ids| == n
  {
    seq(n, k requires 0 <= k < n => Int(k + 1))
  }

  /** Adds a shipment_id column numbering the rows 1..n in row order, unless
      the frame already has one, which is then left alone. */
  function WithSurrogateKey(t: Table): (r: Table)
    ensures SHIPMENT_ID in t.columns ==> r == t
    ensures SHIPMENT_ID !in t.columns ==>
      && r.columns == t.columns + [SHIPMENT_ID]
      && |r.rows| == |t.rows|
      && forall k :: 0 <= k < |t.rows| ==>
        && r.rows[k].Keys == t.rows[k].Keys + {SHIPMENT_ID}
        && r.rows[k][SHIPMENT_ID] == Int(k + 1)
        && forall d :: d in t.rows[k] && d != SHIPMENT_ID ==> r.rows[k][d] == t.rows[k][d]
  {
    if SHIPMENT_ID in t.columns then t else WithColumn(t, SHIPMENT_ID, Ids(|t.rows|))
  }

  /** The columns that to_datetime turned into datetime64 columns. */
  predicate IsDatetimeColumn(c: string) {
    c == TIMESTAMP || c == DATE || c == LAST_UPDATED
  }

  /** merged_df.select_dtypes(include=['datetime64[ns]']).columns */
  function DatetimeColumns(cols: seq<string>): (r: seq<string>)
    ensures forall c :: c in r <==> c in cols && IsDatetimeColumn(c)
  {
    if cols == [] then []
    else (if IsDatetimeColumn(cols[0]) then [cols[0]] else []) + DatetimeColumns(cols[1..])
  }

  /** astype(str) on a cell of a datetime column. */
  function StringifyCell(c: Cell, show: int -> string): (r: Cell)
    ensures r != Null
    ensures c.Temporal? && c.t.Known? ==> r == Str(show(c.t.nanos))
    ensures c == Null || c == Temporal(Unparsed) ==> r == Str(NAT)
    ensures !c.Temporal? && !c.Null? ==> r == c
  {
    match c
    case Temporal(Known(n)) => Str(show(n))
    case Temporal(Unparsed) => Str(NAT)
    case Null => Str(NAT)
    case _ => c
  }

  /** df[c] = df[c].astype(str) */
  function StringifyColumn(t: Table, c: string, show: int -> string): (r: Table)
    ensures c in t.columns ==> r.columns == t.columns
    ensures |r.rows| == |t.rows|
    ensures forall k :: 0 <= k < |t.rows| ==>
      && r.rows[k].Keys == t.rows[k].Keys + {c}
      && r.rows[k][c] == StringifyCell(Get(t.rows[k], c), show)
      && forall d :: d in t.rows[k] && d != c ==> r.rows[k][d] == t.rows[k][d]
  {
    WithColumn(t, c, seq(|t.rows|, k requires 0 <= k < |t.rows| => StringifyCell(Get(t.rows[k], c), show)))
  }

  /** The loop over the datetime columns, after its first |cs| iterations. */
  function StringifyColumns(t: Table, cs: seq<string>, show: int -> string): Table
    decreases |cs|
  {
    if cs == [] then t
    else StringifyColumn(StringifyColumns(t, cs[..|cs| - 1], show), cs[|cs| - 1], show)
  }

  /** The last two steps: stringify the datetime columns, then fillna('N/A'). */
  function Finalized(t: Table, show: int -> string): (r: Table)
    ensures r.columns == t.columns && |r.rows| == |t.rows|
    ensures NoNulls(r)
  {
    StringifyColumnsCells(t, DatetimeColumns(t.columns), show);
    Filled(StringifyColumns(t, DatetimeColumns(t.columns), show), Str(FILL))
  }

  function PreparedShipping(s: Table, parse: Cell -> Time): Table {
    WithSurrogateKey(Coerced(s, TIMESTAMP, parse))
  }

  function PreparedCustoms(c: Table, parse: Cell -> Time): Table {
    Coerced(c, DATE, parse)
  }

  function PreparedWarehouse(w: Table, parse: Cell -> Time): Table {
    WithSurrogateKey(Coerced(w, LAST_UPDATED, parse))
  }

  /** pd.merge(shipping_df, customs_df, left_on='timestamp', right_on='Date', how='left') */
  function FirstJoin(s: Table, c: Table, parse: Cell -> Time): (r: Table)
    ensures |r.rows| >= |s.rows|
  {
    LeftMerge(PreparedShipping(s, parse), PreparedCustoms(c, parse), TIMESTAMP, DATE)
  }

  /** pd.merge(merged_df, warehouse_df, on='shipment_id', how='left') */
  function SecondJoin(s: Table, c: Table, w: Table, parse: Cell -> Time): (r: Table)
    ensures |r.rows| >= |s.rows|
  {
    LeftMerge(FirstJoin(s, c, parse), PreparedWarehouse(w, parse), SHIPMENT_ID, SHIPMENT_ID)
  }

  predicate AnyEmpty(s: Table, c: Table, w: Table) {
    IsEmpty(s) || IsEmpty(c) || IsEmpty(w)
  }

  /** What transform_data does with the three frames. */
  function Run(s: Table, c: Table, w: Table, parse: Cell -> Time, show: int -> string): (o: Outcome)
    ensures o == Skipped <==> AnyEmpty(s, c, w)
    ensures o.Merged? <==> Coercible(s, c, w) && SHIPMENT_ID !in c.columns
    ensures o.Merged? ==> !IsEmpty(o.table) && |o.table.rows| >= |s.rows|
  {
    if AnyEmpty(s, c, w) then Skipped
    else if TIMESTAMP !in s.columns then Faulted(MissingColumn(TIMESTAMP))
    else if DATE !in c.columns then Faulted(MissingColumn(DATE))
    else if LAST_UPDATED !in w.columns then Faulted(MissingColumn(LAST_UPDATED))
    else if SHIPMENT_ID in c.columns then Faulted(AmbiguousKey(SHIPMENT_ID))
    else
      MergedShape(s, c, w, parse, show);
      Merged(Finalized(SecondJoin(s, c, w, parse), show))
  }

  /** The frame transform_data returns: empty when it skipped or faulted. */
  function Transform(s: Table, c: Table, w: Table, parse: Cell -> Time, show: int -> string): (r: Table)
    ensures !Run(s, c, w, parse, show).Merged? ==> r == Empty
    ensures IsEmpty(r) <==> !Run(s, c, w, parse, show).Merged?
  {
    match Run(s, c, w, parse, show)
    case Merged(t) => t
    case _ => Empty
  }

  /** True when the try block got past the three to_datetime assignments. */
  predicate Coercible(s: Table, c: Table, w: Table) {
    !AnyEmpty(s, c, w) && TIMESTAMP in s.columns && DATE in c.columns && LAST_UPDATED in w.columns
  }

  /** The shipping frame as transform_data leaves it: timestamp coerced once
      the try block reaches it, shipment_id added once all three coercions
      have succeeded. */
  function ShippingAfter(s: Table, c: Table, w: Table, parse: Cell -> Time): (r: Table)
    ensures |r.rows| == |s.rows|
    ensures forall d :: d in s.columns ==> d in r.columns
    ensures SHIPMENT_ID in r.columns <==> SHIPMENT_ID in s.columns || Coercible(s, c, w)
  {
    if AnyEmpty(s, c, w) || TIMESTAMP !in s.columns then s
    else if DATE !in c.columns || LAST_UPDATED !in w.columns then Coerced(s, TIMESTAMP, parse)
    else PreparedShipping(s, parse)
  }

  /** The customs frame as transform_data leaves it: Date coerced, and never a
      shipment_id that it did not have. */
  function CustomsAfter(s: Table, c: Table, w: Table, parse: Cell -> Time): (r: Table)
    ensures |r.rows| == |c.rows| && r.columns == c.columns
    ensures SHIPMENT_ID in r.columns <==> SHIPMENT_ID in c.columns
  {
    if AnyEmpty(s, c, w) || TIMESTAMP !in s.columns || DATE !in c.columns then c
    else PreparedCustoms(c, parse)
  }

  function WarehouseAfter(s: Table, c: Table, w: Table, parse: Cell -> Time): (r: Table)
    ensures |r.rows| == |w.rows|
    ensures forall d :: d in w.columns ==> d in r.columns
    ensures SHIPMENT_ID in r.columns <==> SHIPMENT_ID in w.columns || Coercible(s, c, w)
  {
    if !Coercible(s, c, w) then w
    else PreparedWarehouse(w, parse)
  }

  /** transform_data(shipping_df, customs_df, warehouse_df) */
  method TransformData(shipping: Frame, customs: Frame, warehouse: Frame,
                       parse: Cell -> Time, show: int -> string) returns (result: Table)
    requires shipping != customs && shipping != warehouse && customs != warehouse
    modifies shipping, customs, warehouse
    ensures result == Transform(old(shipping.Value()), old(customs.Value()), old(warehouse.Value()), parse, show)
    ensures shipping.Value() == ShippingAfter(old(shipping.Value()), old(customs.Value()), old(warehouse.Value()), parse)
    ensures customs.Value() == CustomsAfter(old(shipping.Value()), old(customs.Value()), old(warehouse.Value()), parse)
    ensures warehouse.Value() == WarehouseAfter(old(shipping.Value()), old(customs.Value()), old(warehouse.Value()), parse)
  {
    if IsEmpty(shipping.Value()) || IsEmpty(customs.Value()) || IsEmpty(warehouse.Value()) {
      return Empty;
    }
    // try:  a KeyError on a missing column ends the block with an empty frame
    if TIMESTAMP !in shipping.columns {
      return Empty;
    }
    shipping.Assign(TIMESTAMP, ToDatetimeColumn(Cells(shipping.Value(), TIMESTAMP), parse));
    if DATE !in customs.columns {
      return Empty;
    }
    customs.Assign(DATE, ToDatetimeColumn(Cells(customs.Value(), DATE), parse));
    if LAST_UPDATED !in warehouse.columns {
      return Empty;
    }
    warehouse.Assign(LAST_UPDATED, ToDatetimeColumn(Cells(warehouse.Value(), LAST_UPDATED), parse));

    if SHIPMENT_ID !in shipping.columns {
      shipping.Assign(SHIPMENT_ID, Ids(|shipping.rows|));
    }
    if SHIPMENT_ID !in warehouse.columns {
      warehouse.Assign(SHIPMENT_ID, Ids(|warehouse.rows|));
    }

    // With a shipment_id on both sides, the first merge renames them
    // shipment_id_x and shipment_id_y, and the second merge cannot find its key.
    if SHIPMENT_ID in customs.columns {
      return Empty;
    }
    var firstJoin := LeftMerge(shipping.Value(), customs.Value(), TIMESTAMP, DATE);
    result := Finalize(LeftMerge(firstJoin, warehouse.Value(), SHIPMENT_ID, SHIPMENT_ID), show);
  }

  /** The end of the try block: each datetime column of the merged frame is
      converted to text in place, then every remaining missing cell is filled. */
  method Finalize(joined: Table, show: int -> string) returns (result: Table)
    ensures result == Finalized(joined, show)
  {
    var merged := new Frame(joined);
    var datetimeColumns := DatetimeColumns(merged.columns);
    for i := 0 to |datetimeColumns|
      invariant merged.Value() == StringifyColumns(joined, datetimeColumns[..i], show)
    {
      var c := datetimeColumns[i];
      var t := merged.Value();
      merged.Assign(c, seq(|t.rows|, k requires 0 <= k < |t.rows| => StringifyCell(Get(t.rows[k], c), show)));
      assert datetimeColumns[..i + 1][..i] == datetimeColumns[..i];
    }
    assert datetimeColumns[..|datetimeColumns|] == datetimeColumns;
    merged.FillNa(Str(FILL));
    result := merged.Value();
  }

  // ---------------------------------------------------------------------------
  // Properties of the functions above
  // ---------------------------------------------------------------------------

  lemma StringifyCellIdempotent(c: Cell, show: int -> string)
    ensures StringifyCell(StringifyCell(c, show), show) == StringifyCell(c, show)
    ensures StringifyCell(c, show) != Null
  {
  }

  /** What the stringify loop does to each cell: the listed columns hold
      astype(str) of their old cells, every other cell is as it was. */
  lemma {:induction false} StringifyColumnsCells(t: Table, cs: seq<string>, show: int -> string)
    ensures var r := StringifyColumns(t, cs, show);
      && |r.rows| == |t.rows|
      && ((forall c :: c in cs ==> c in t.columns) ==> r.columns == t.columns)
      && (forall k :: 0 <= k < |t.rows| ==> r.rows[k].Keys == t.rows[k].Keys + ColumnSet(cs))
      && (forall k, c :: 0 <= k < |t.rows| && c in cs ==> r.rows[k][c] == StringifyCell(Get(t.rows[k], c), show))
      && (forall k, c :: 0 <= k < |t.rows| && c in t.rows[k] && c !in cs ==> r.rows[k][c] == t.rows[k][c])
    decreases |cs|
  {
    if cs != [] {
      var init, last := cs[..|cs| - 1], cs[|cs| - 1];
      assert cs == init + [last];
      ColumnSetAppend(init, [last]);
      StringifyColumnsCells(t, init, show);
      var p := StringifyColumns(t, init, show);
      var r := StringifyColumns(t, cs, show);
      assert r == StringifyColumn(p, last, show);
      forall k, c | 0 <= k < |t.rows| && c in cs
        ensures r.rows[k][c] == StringifyCell(Get(t.rows[k], c), show)
      {
        if c == last {
          assert r.rows[k][c] == StringifyCell(Get(p.rows[k], c), show);
          if c in init {
            StringifyCellIdempotent(Get(t.rows[k], c), show);
          } else {
            assert Get(p.rows[k], c) == Get(t.rows[k], c);
          }
        } else {
          assert c in init;
          assert r.rows[k][c] == p.rows[k][c];
        }
      }
    }
  }

  /** The cells of the frame transform_data returns, in terms of the joined
      frame: datetime columns hold their text ("NaT" where the time is
      missing), every other missing cell holds "N/A", and no cell is missing. */
  lemma FinalizedCells(t: Table, show: int -> string)
    requires WellFormed(t)
    ensures var r := Finalized(t, show);
      && r.columns == t.columns
      && |r.rows| == |t.rows|
      && WellFormed(r)
      && NoNulls(r)
      && forall k, c :: 0 <= k < |t.rows| && c in t.columns ==>
        && c in r.rows[k]
        && r.rows[k][c] == (if IsDatetimeColumn(c) then StringifyCell(t.rows[k][c], show)
                            else FillCell(t.rows[k][c], Str(FILL)))
  {
    var cs := DatetimeColumns(t.columns);
    StringifyColumnsCells(t, cs, show);
    var st := StringifyColumns(t, cs, show);
    assert ColumnSet(cs) <= ColumnSet(t.columns);
    assert WellFormed(st);
    forall k, c | 0 <= k < |t.rows| && c in t.columns && IsDatetimeColumn(c)
      ensures st.rows[k][c] != Null
    {
      StringifyCellIdempotent(t.rows[k][c], show);
    }
  }

  /** Row count and columns of the merged frame, which hold of every input. */
  lemma MergedShape(s: Table, c: Table, w: Table, parse: Cell -> Time, show: int -> string)
    requires TIMESTAMP in s.columns && DATE in c.columns && LAST_UPDATED in w.columns
    ensures var m := SecondJoin(s, c, w, parse);
      && Finalized(m, show).columns == m.columns
      && m.columns == PreparedShipping(s, parse).columns + c.columns
                      + Without(PreparedWarehouse(w, parse).columns, SHIPMENT_ID)
      && |Finalized(m, show).rows| == |m.rows| >= |FirstJoin(s, c, parse).rows| >= |s.rows|
  {
    var m := SecondJoin(s, c, w, parse);
    LeftMergeRowCount(PreparedShipping(s, parse), PreparedCustoms(c, parse), TIMESTAMP, DATE);
    LeftMergeRowCount(FirstJoin(s, c, parse), PreparedWarehouse(w, parse), SHIPMENT_ID, SHIPMENT_ID);
    var cs := DatetimeColumns(m.columns);
    StringifyColumnsCells(m, cs, show);
  }

  /** Column names that pandas would have to suffix with _x and _y do not
      occur: the only name two inputs may share is shipment_id. */
  predicate Clashless(s: Table, c: Table, w: Table) {
    && (forall x :: x in s.columns && x in c.columns ==> x == SHIPMENT_ID)
    && (forall x :: x in w.columns && (x in s.columns || x in c.columns) ==> x == SHIPMENT_ID)
  }

  lemma PreparedWellFormed(s: Table, c: Table, w: Table, parse: Cell -> Time)
    requires WellFormed(s) && WellFormed(c) && WellFormed(w)
    ensures WellFormed(PreparedShipping(s, parse))
    ensures WellFormed(PreparedCustoms(c, parse))
    ensures WellFormed(PreparedWarehouse(w, parse))
  {
    WithColumnWellFormed(s, TIMESTAMP, ToDatetimeColumn(Cells(s, TIMESTAMP), parse));
    WithColumnWellFormed(c, DATE, ToDatetimeColumn(Cells(c, DATE), parse));
    WithColumnWellFormed(w, LAST_UPDATED, ToDatetimeColumn(Cells(w, LAST_UPDATED), parse));
    var s0, w0 := Coerced(s, TIMESTAMP, parse), Coerced(w, LAST_UPDATED, parse);
    if SHIPMENT_ID !in s0.columns {
      WithColumnWellFormed(s0, SHIPMENT_ID, Ids(|s0.rows|));
    }
    if SHIPMENT_ID !in w0.columns {
      WithColumnWellFormed(w0, SHIPMENT_ID, Ids(|w0.rows|));
    }
  }

  lemma PreparedColumns(s: Table, c: Table, w: Table, parse: Cell -> Time)
    requires TIMESTAMP in s.columns && DATE in c.columns && LAST_UPDATED in w.columns
    ensures ColumnSet(PreparedShipping(s, parse).columns) == ColumnSet(s.columns) + {SHIPMENT_ID}
    ensures PreparedCustoms(c, parse).columns == c.columns
    ensures ColumnSet(PreparedWarehouse(w, parse).columns) == ColumnSet(w.columns) + {SHIPMENT_ID}
  {
    var s0, w0 := Coerced(s, TIMESTAMP, parse), Coerced(w, LAST_UPDATED, parse);
    if SHIPMENT_ID !in s0.columns {
      ColumnSetAppend(s0.columns, [SHIPMENT_ID]);
    }
    if SHIPMENT_ID !in w0.columns {
      ColumnSetAppend(w0.columns, [SHIPMENT_ID]);
    }
  }

  /** The merged frame, when the try block runs to the end. */
  lemma RunMerged(s: Table, c: Table, w: Table, parse: Cell -> Time, show: int -> string)
    requires Coercible(s, c, w) && SHIPMENT_ID !in c.columns
    ensures Run(s, c, w, parse, show) == Merged(Finalized(SecondJoin(s, c, w, parse), show))
  {
  }

  /** Both joins produce well-formed frames. */
  lemma JoinsWellFormed(s: Table, c: Table, w: Table, parse: Cell -> Time)
    requires WellFormed(s) && WellFormed(c) && WellFormed(w) && Clashless(s, c, w)
    requires TIMESTAMP in s.columns && DATE in c.columns && LAST_UPDATED in w.columns
    requires SHIPMENT_ID !in c.columns
    ensures WellFormed(FirstJoin(s, c, parse))
    ensures WellFormed(SecondJoin(s, c, w, parse))
  {
    PreparedWellFormed(s, c, w, parse);
    PreparedColumns(s, c, w, parse);
    var s1, c1, w1 := PreparedShipping(s, parse), PreparedCustoms(c, parse), PreparedWarehouse(w, parse);
    assert RightColumns(c1, TIMESTAMP, DATE) == c.columns;
    forall x | x in c.columns ensures x !in s1.columns {
      assert x in ColumnSet(c.columns);
      assert x !in ColumnSet(s1.columns);
    }
    LeftMergeWellFormed(s1, c1, TIMESTAMP, DATE);
    var m1 := FirstJoin(s, c, parse);
    assert m1.columns == s1.columns + c.columns;
    ColumnSetAppend(s1.columns, c.columns);
    assert SHIPMENT_ID in ColumnSet(m1.columns);
    var rest := RightColumns(w1, SHIPMENT_ID, SHIPMENT_ID);
    assert ColumnSet(rest) == ColumnSet(w1.columns) - {SHIPMENT_ID};
    forall x | x in rest ensures x !in m1.columns {
      assert x in ColumnSet(rest);
      assert x !in ColumnSet(m1.columns);
    }
    LeftMergeWellFormed(m1, w1, SHIPMENT_ID, SHIPMENT_ID);
  }

  /** After a successful transform_data no cell is missing: the datetime
      columns hold text (written before the fill, so "NaT" rather than "N/A"
      where the time is missing) and every other missing cell holds "N/A". */
  lemma MergedTableCells(s: Table, c: Table, w: Table, parse: Cell -> Time, show: int -> string)
    requires WellFormed(s) && WellFormed(c) && WellFormed(w) && Clashless(s, c, w)
    requires Coercible(s, c, w) && SHIPMENT_ID !in c.columns
    ensures var t, m := Run(s, c, w, parse, show).table, SecondJoin(s, c, w, parse);
      && WellFormed(t)
      && NoNulls(t)
      && t.columns == m.columns
      && |t.rows| == |m.rows|
      && forall k, col :: 0 <= k < |m.rows| && col in m.columns ==>
        && col in t.rows[k]
        && t.rows[k][col] == (if IsDatetimeColumn(col) then StringifyCell(Get(m.rows[k], col), show)
                              else FillCell(Get(m.rows[k], col), Str(FILL)))
  {
    var m := SecondJoin(s, c, w, parse);
    RunMerged(s, c, w, parse, show);
    JoinsWellFormed(s, c, w, parse);
    FinalizedCells(m, show);
    var t := Finalized(m, show);
    assert Run(s, c, w, parse, show).table == t;
  }

  /** The first shipping row's output starts the merged frame. */
  lemma FirstMergedPosition(s: Table, c: Table, w: Table, parse: Cell -> Time)
    requires 0 < |s.rows|
    ensures MergedPosition(s, c, w, parse, 0) == 0
  {
    assert PreparedShipping(s, parse).rows[..0] == [];
    assert FirstJoin(s, c, parse).rows[..0] == [];
  }

  /** Where, in the merged frame, the first row that shipping row i yields
      ends up after both joins. */
  function MergedPosition(s: Table, c: Table, w: Table, parse: Cell -> Time, i: nat): nat
    requires i < |s.rows|
  {
    var s1, c1 := PreparedShipping(s, parse), PreparedCustoms(c, parse);
    LeftMergeKeepsLeftRows(s1, c1, TIMESTAMP, DATE);
    Position(FirstJoin(s, c, parse).rows, PreparedWarehouse(w, parse), SHIPMENT_ID, SHIPMENT_ID,
             Position(s1.rows, c1, TIMESTAMP, DATE, i))
  }

  /** The cells of the prepared shipping frame are the shipping cells, for
      every column but the coerced timestamp. */
  lemma PreparedShippingCells(s: Table, parse: Cell -> Time, i: nat)
    requires WellFormed(s) && i < |s.rows|
    ensures forall col :: col in s.columns ==> col in PreparedShipping(s, parse).rows[i]
    ensures forall col :: col in s.columns && col != TIMESTAMP ==>
      PreparedShipping(s, parse).rows[i][col] == s.rows[i][col]
    ensures Get(PreparedShipping(s, parse).rows[i], TIMESTAMP)
            == Temporal(ToDatetime(parse, Get(s.rows[i], TIMESTAMP)))
    ensures TIMESTAMP in s.columns ==>
      PreparedShipping(s, parse).rows[i].Keys == ColumnSet(s.columns) + {SHIPMENT_ID}
    ensures SHIPMENT_ID !in s.columns ==> PreparedShipping(s, parse).rows[i][SHIPMENT_ID] == Int(i + 1)
  {
  }

  lemma PreparedWarehouseCells(w: Table, parse: Cell -> Time, j: nat)
    requires WellFormed(w) && j < |w.rows|
    ensures forall col :: col in w.columns ==> col in PreparedWarehouse(w, parse).rows[j]
    ensures forall col :: col in w.columns && col != LAST_UPDATED ==>
      PreparedWarehouse(w, parse).rows[j][col] == w.rows[j][col]
    ensures SHIPMENT_ID !in w.columns ==> Get(PreparedWarehouse(w, parse).rows[j], SHIPMENT_ID) == Int(j + 1)
  {
  }

  lemma PreparedCustomsCells(c: Table, parse: Cell -> Time, j: nat)
    requires WellFormed(c) && j < |c.rows|
    ensures forall col :: col in c.columns ==> col in PreparedCustoms(c, parse).rows[j]
    ensures forall col :: col in c.columns && col != DATE ==>
      PreparedCustoms(c, parse).rows[j][col] == c.rows[j][col]
    ensures Get(PreparedCustoms(c, parse).rows[j], DATE)
            == Temporal(ToDatetime(parse, Get(c.rows[j], DATE)))
  {
  }

  /** Row q of the first join survives into the second join at its position. */
  lemma SecondJoinKeepsRow(s: Table, c: Table, w: Table, parse: Cell -> Time, q: nat)
    requires q < |FirstJoin(s, c, parse).rows|
    ensures var m1, w1 := FirstJoin(s, c, parse), PreparedWarehouse(w, parse);
      var p := Position(m1.rows, w1, SHIPMENT_ID, SHIPMENT_ID, q);
      && p < |SecondJoin(s, c, w, parse).rows|
      && Extends(SecondJoin(s, c, w, parse).rows[p], m1.rows[q])
  {
    var m1, w1 := FirstJoin(s, c, parse), PreparedWarehouse(w, parse);
    LeftMergeKeepsLeftRows(m1, w1, SHIPMENT_ID, SHIPMENT_ID);
  }

  /** A shipping row that no customs row matches yields, in the first join, a
      row holding its own cells and a missing cell in every customs column. */
  lemma FirstJoinUnmatched(s: Table, c: Table, parse: Cell -> Time, i: nat)
    requires WellFormed(s) && WellFormed(c)
    requires forall x :: x in s.columns && x in c.columns ==> x == SHIPMENT_ID
    requires TIMESTAMP in s.columns && DATE in c.columns && SHIPMENT_ID !in c.columns
    requires i < |s.rows|
    requires forall k :: 0 <= k < |c.rows| ==>
      ToDatetime(parse, Get(c.rows[k], DATE)) != ToDatetime(parse, Get(s.rows[i], TIMESTAMP))
    ensures var s1, c1, m1 := PreparedShipping(s, parse), PreparedCustoms(c, parse), FirstJoin(s, c, parse);
      var p1 := Position(s1.rows, c1, TIMESTAMP, DATE, i);
      && p1 < |m1.rows|
      && (forall col :: col in c.columns ==> col in m1.rows[p1] && m1.rows[p1][col] == Null)
      && (forall col :: col in s.columns && col != TIMESTAMP ==>
            col in m1.rows[p1] && m1.rows[p1][col] == s.rows[i][col])
  {
    var s1, c1 := PreparedShipping(s, parse), PreparedCustoms(c, parse);
    PreparedShippingCells(s, parse, i);
    NoMatches(c1.rows, DATE, Get(s1.rows[i], TIMESTAMP));
    LeftMergeUnmatchedRow(s1, c1, TIMESTAMP, DATE, i);
    assert RightColumns(c1, TIMESTAMP, DATE) == c.columns;
  }

  /** `row` holds the cell of `source` in every column of `cols` but `skip`. */
  predicate Carries(row: Row, source: Row, cols: seq<string>, skip: string) {
    forall col :: col in cols && col != skip ==> col in row && row[col] == Get(source, col)
  }

  /** A row that extends one carrying a source row's cells carries them too. */
  lemma CarriesExtends(big: Row, small: Row, source: Row, cols: seq<string>, skip: string)
    requires Extends(big, small) && Carries(small, source, cols, skip)
    ensures Carries(big, source, cols, skip)
  {
  }

  /** `row`, in the frame transform_data returns, shows the cells of `source`
      in every column of `cols` but the datetime ones, "N/A" where `source`
      has a missing cell. */
  predicate ShowsFilled(row: Row, source: Row, cols: seq<string>) {
    forall col :: col in cols && !IsDatetimeColumn(col) ==> Get(row, col) == FillCell(Get(source, col), Str(FILL))
  }

  /** A shipping row whose timestamp equals the Date of customs row j yields,
      in the first join, a row holding the cells of both. */
  lemma FirstJoinMatched(s: Table, c: Table, parse: Cell -> Time, i: nat, j: nat)
    requires WellFormed(s) && WellFormed(c)
    requires forall x :: x in s.columns && x in c.columns ==> x == SHIPMENT_ID
    requires TIMESTAMP in s.columns && DATE in c.columns && SHIPMENT_ID !in c.columns
    requires i < |s.rows| && j < |c.rows|
    requires ToDatetime(parse, Get(c.rows[j], DATE)) == ToDatetime(parse, Get(s.rows[i], TIMESTAMP))
    ensures var m1 := FirstJoin(s, c, parse);
      exists q ::
        && 0 <= q < |m1.rows|
        && Carries(m1.rows[q], c.rows[j], c.columns, DATE)
        && Carries(m1.rows[q], s.rows[i], s.columns, TIMESTAMP)
  {
    var s1, c1, m1 := PreparedShipping(s, parse), PreparedCustoms(c, parse), FirstJoin(s, c, parse);
    PreparedShippingCells(s, parse, i);
    PreparedCustomsCells(c, parse, j);
    var key := Temporal(ToDatetime(parse, Get(s.rows[i], TIMESTAMP)));
    assert Get(c1.rows[j], DATE) == key;
    assert Get(s1.rows[i], TIMESTAMP) == key;
    LeftMergeHasMatch(s1, c1, TIMESTAMP, DATE, i, j);
    var q :| 0 <= q < |m1.rows| && m1.rows[q] == c1.rows[j] + s1.rows[i];
    var row, srow, crow := m1.rows[q], s1.rows[i], c1.rows[j];
    assert row == crow + srow;
    PreparedCustomsCells(c, parse, j);
    forall col | col in c.columns && col != DATE
      ensures col in row && row[col] == c.rows[j][col]
    {
      assert col !in ColumnSet(s.columns);
      assert col !in srow;
      assert row[col] == crow[col];
    }
    forall col | col in s.columns && col != TIMESTAMP
      ensures col in row && row[col] == s.rows[i][col]
    {
      assert col in srow && row[col] == srow[col];
    }
    assert Carries(row, c.rows[j], c.columns, DATE);
    assert Carries(row, s.rows[i], s.columns, TIMESTAMP);
  }

  /** Every column of the three inputs is a column of the merged frame. */
  lemma MergedColumns(s: Table, c: Table, w: Table, parse: Cell -> Time)
    requires TIMESTAMP in s.columns && DATE in c.columns && LAST_UPDATED in w.columns
    ensures forall col :: col in s.columns || col in c.columns || col in w.columns ==>
      col in SecondJoin(s, c, w, parse).columns
  {
    PreparedColumns(s, c, w, parse);
    var s1, w1 := PreparedShipping(s, parse), PreparedWarehouse(w, parse);
    var m := SecondJoin(s, c, w, parse);
    assert m.columns == s1.columns + c.columns + Without(w1.columns, SHIPMENT_ID);
    ColumnSetAppend(s1.columns + c.columns, Without(w1.columns, SHIPMENT_ID));
    ColumnSetAppend(s1.columns, c.columns);
    forall col | col in s.columns || col in c.columns || col in w.columns
      ensures col in m.columns
    {
      assert col in ColumnSet(m.columns);
    }
  }

  /** Row k of Finalized(m), column by column, for the listed columns of m. */
  lemma FinalizedRow(m: Table, show: int -> string, k: nat, cols: seq<string>)
    requires WellFormed(m) && k < |m.rows|
    requires forall col :: col in cols ==> col in m.columns
    ensures k < |Finalized(m, show).rows|
    ensures forall col :: col in cols ==>
      Get(Finalized(m, show).rows[k], col)
      == (if IsDatetimeColumn(col) then StringifyCell(Get(m.rows[k], col), show)
          else FillCell(Get(m.rows[k], col), Str(FILL)))
  {
    FinalizedCells(m, show);
  }

  /** A joined row that carries a source row's cells, except in one datetime
      column, shows them filled in the finalized frame. */
  lemma FinalizedShows(m: Table, show: int -> string, k: nat, source: Row, cols: seq<string>, skip: string)
    requires WellFormed(m) && k < |m.rows|
    requires forall col :: col in cols ==> col in m.columns
    requires IsDatetimeColumn(skip) && Carries(m.rows[k], source, cols, skip)
    ensures k < |Finalized(m, show).rows|
    ensures ShowsFilled(Finalized(m, show).rows[k], source, cols)
  {
    FinalizedRow(m, show, k, cols);
  }

  /** `row` has a missing cell in every column of `cols`. */
  predicate MissingIn(row: Row, cols: seq<string>) {
    forall col :: col in cols ==> col in row && row[col] == Null
  }

  /** The joined row of an unmatched shipping row, before the final steps. */
  lemma SecondJoinUnmatched(s: Table, c: Table, w: Table, parse: Cell -> Time, i: nat)
    requires WellFormed(s) && WellFormed(c)
    requires forall x :: x in s.columns && x in c.columns ==> x == SHIPMENT_ID
    requires TIMESTAMP in s.columns && DATE in c.columns && SHIPMENT_ID !in c.columns
    requires i < |s.rows|
    requires forall k :: 0 <= k < |c.rows| ==>
      ToDatetime(parse, Get(c.rows[k], DATE)) != ToDatetime(parse, Get(s.rows[i], TIMESTAMP))
    ensures var m2, p := SecondJoin(s, c, w, parse), MergedPosition(s, c, w, parse, i);
      && p < |m2.rows|
      && MissingIn(m2.rows[p], c.columns)
      && Carries(m2.rows[p], s.rows[i], s.columns, TIMESTAMP)
  {
    var m1, m2 := FirstJoin(s, c, parse), SecondJoin(s, c, w, parse);
    var p1 := Position(PreparedShipping(s, parse).rows, PreparedCustoms(c, parse), TIMESTAMP, DATE, i);
    FirstJoinUnmatched(s, c, parse, i);
    SecondJoinKeepsRow(s, c, w, parse, p1);
    var p := MergedPosition(s, c, w, parse, i);
    assert p == Position(m1.rows, PreparedWarehouse(w, parse), SHIPMENT_ID, SHIPMENT_ID, p1);
    var first, joined := m1.rows[p1], m2.rows[p];
    assert Extends(joined, first);
    forall col | col in c.columns ensures col in joined && joined[col] == Null {
      assert col in first && first[col] == Null;
    }
    forall col | col in s.columns && col != TIMESTAMP ensures col in joined && joined[col] == Get(s.rows[i], col) {
      assert col in first && first[col] == s.rows[i][col];
    }
    assert MissingIn(joined, c.columns);
    assert Carries(joined, s.rows[i], s.columns, TIMESTAMP);
  }

  /** The customs cells of a shipping row that found no customs row: the
      stringified Date is "NaT", and every other customs column holds "N/A". */
  predicate ShowsUnmatched(row: Row, customs: seq<string>) {
    && Get(row, DATE) == Str(NAT)
    && forall col :: col in customs && col != DATE ==> Get(row, col) == Str(FILL)
  }

  /** A shipping row whose timestamp equals no customs Date keeps its own
      cells, and the customs columns of its merged row hold the sentinel:
      "N/A" in every customs column except Date, which holds "NaT". */
  lemma UnmatchedShippingRow(s: Table, c: Table, w: Table, parse: Cell -> Time, show: int -> string, i: nat)
    requires WellFormed(s) && WellFormed(c) && WellFormed(w) && Clashless(s, c, w)
    requires Coercible(s, c, w) && SHIPMENT_ID !in c.columns
    requires i < |s.rows|
    requires forall k :: 0 <= k < |c.rows| ==>
      ToDatetime(parse, Get(c.rows[k], DATE)) != ToDatetime(parse, Get(s.rows[i], TIMESTAMP))
    ensures var t, p := Run(s, c, w, parse, show).table, MergedPosition(s, c, w, parse, i);
      && p < |t.rows|
      && ShowsUnmatched(t.rows[p], c.columns)
      && ShowsFilled(t.rows[p], s.rows[i], s.columns)
  {
    var m2, p := SecondJoin(s, c, w, parse), MergedPosition(s, c, w, parse, i);
    SecondJoinUnmatched(s, c, w, parse, i);
    JoinsWellFormed(s, c, w, parse);
    MergedColumns(s, c, w, parse);
    FinalizedRow(m2, show, p, s.columns);
    FinalizedRow(m2, show, p, c.columns);
    RunMerged(s, c, w, parse, show);
    var row, joined := Finalized(m2, show).rows[p], m2.rows[p];
    assert Get(row, DATE) == Str(NAT);
    forall col | col in c.columns && col != DATE
      ensures Get(row, col) == Str(FILL)
    {
      assert col != TIMESTAMP && col != LAST_UPDATED;
      assert Get(joined, col) == Null;
    }
    assert ShowsUnmatched(row, c.columns);
    assert ShowsFilled(row, s.rows[i], s.columns);
  }

  /** A shipping row whose timestamp equals the Date of customs row j has a
      merged row holding the cells of both. */
  lemma MatchedShippingRow(s: Table, c: Table, w: Table, parse: Cell -> Time, show: int -> string, i: nat, j: nat)
    requires WellFormed(s) && WellFormed(c) && WellFormed(w) && Clashless(s, c, w)
    requires Coercible(s, c, w) && SHIPMENT_ID !in c.columns
    requires i < |s.rows| && j < |c.rows|
    requires ToDatetime(parse, Get(c.rows[j], DATE)) == ToDatetime(parse, Get(s.rows[i], TIMESTAMP))
    ensures var t := Run(s, c, w, parse, show).table;
      exists p ::
        && 0 <= p < |t.rows|
        && ShowsFilled(t.rows[p], c.rows[j], c.columns)
        && ShowsFilled(t.rows[p], s.rows[i], s.columns)
  {
    var m1, m2 := FirstJoin(s, c, parse), SecondJoin(s, c, w, parse);
    FirstJoinMatched(s, c, parse, i, j);
    var q :| 0 <= q < |m1.rows|
      && Carries(m1.rows[q], c.rows[j], c.columns, DATE)
      && Carries(m1.rows[q], s.rows[i], s.columns, TIMESTAMP);
    SecondJoinKeepsRow(s, c, w, parse, q);
    var p := Position(m1.rows, PreparedWarehouse(w, parse), SHIPMENT_ID, SHIPMENT_ID, q);
    CarriesExtends(m2.rows[p], m1.rows[q], c.rows[j], c.columns, DATE);
    CarriesExtends(m2.rows[p], m1.rows[q], s.rows[i], s.columns, TIMESTAMP);
    JoinsWellFormed(s, c, w, parse);
    MergedColumns(s, c, w, parse);
    FinalizedShows(m2, show, p, c.rows[j], c.columns, DATE);
    FinalizedShows(m2, show, p, s.rows[i], s.columns, TIMESTAMP);
    RunMerged(s, c, w, parse, show);
    var t := Run(s, c, w, parse, show).table;
    assert t == Finalized(m2, show);
    assert && 0 <= p < |t.rows|
           && ShowsFilled(t.rows[p], c.rows[j], c.columns)
           && ShowsFilled(t.rows[p], s.rows[i], s.columns);
  }

  /** to_datetime leaves a column that already holds datetimes as it is. */
  lemma CoercedFixed(t: Table, c: string, parse: Cell -> Time)
    requires c in t.columns
    requires forall k :: 0 <= k < |t.rows| ==> c in t.rows[k] && t.rows[k][c].Temporal?
    ensures Coerced(t, c, parse) == t
  {
    var r := Coerced(t, c, parse);
    forall k | 0 <= k < |t.rows| ensures r.rows[k] == t.rows[k] {
      assert r.rows[k] == t.rows[k][c := t.rows[k][c]];
    }
  }

  /** Coercing a column a second time changes nothing. */
  lemma CoercedTwice(t: Table, c: string, parse: Cell -> Time)
    requires c in t.columns
    ensures Coerced(Coerced(t, c, parse), c, parse) == Coerced(t, c, parse)
  {
    CoercedFixed(Coerced(t, c, parse), c, parse);
  }

  lemma PreparedTwice(s: Table, c: Table, w: Table, parse: Cell -> Time)
    requires TIMESTAMP in s.columns && DATE in c.columns && LAST_UPDATED in w.columns
    ensures PreparedShipping(PreparedShipping(s, parse), parse) == PreparedShipping(s, parse)
    ensures PreparedCustoms(PreparedCustoms(c, parse), parse) == PreparedCustoms(c, parse)
    ensures PreparedWarehouse(PreparedWarehouse(w, parse), parse) == PreparedWarehouse(w, parse)
  {
    var s1, w1 := PreparedShipping(s, parse), PreparedWarehouse(w, parse);
    CoercedFixed(s1, TIMESTAMP, parse);
    CoercedTwice(c, DATE, parse);
    CoercedFixed(w1, LAST_UPDATED, parse);
  }

  /** transform_data changes the caller's frames, yet calling it again on the
      frames it left behind returns the same frame and changes nothing more. */
  lemma RerunIsStable(s: Table, c: Table, w: Table, parse: Cell -> Time, show: int -> string)
    ensures var s2, c2, w2 := ShippingAfter(s, c, w, parse), CustomsAfter(s, c, w, parse), WarehouseAfter(s, c, w, parse);
      && Transform(s2, c2, w2, parse, show) == Transform(s, c, w, parse, show)
      && ShippingAfter(s2, c2, w2, parse) == s2
      && CustomsAfter(s2, c2, w2, parse) == c2
      && WarehouseAfter(s2, c2, w2, parse) == w2
  {
    var s2, c2, w2 := ShippingAfter(s, c, w, parse), CustomsAfter(s, c, w, parse), WarehouseAfter(s, c, w, parse);
    if AnyEmpty(s, c, w) || TIMESTAMP !in s.columns {
    } else if DATE !in c.columns {
      CoercedTwice(s, TIMESTAMP, parse);
    } else if LAST_UPDATED !in w.columns {
      CoercedTwice(s, TIMESTAMP, parse);
      CoercedTwice(c, DATE, parse);
    } else {
      PreparedTwice(s, c, w, parse);
      assert Coercible(s2, c2, w2);
      if SHIPMENT_ID !in c.columns {
        assert SecondJoin(s2, c2, w2, parse) == SecondJoin(s, c, w, parse);
        RunMerged(s, c, w, parse, show);
        RunMerged(s2, c2, w2, parse, show);
      }
    }
  }

  /** Each shipping row appears in the first join, at its position, with its
      own cells and, when shipping had no shipment_id, its row number. */
  lemma FirstJoinKeepsShippingRow(s: Table, c: Table, parse: Cell -> Time, i: nat)
    requires WellFormed(s) && i < |s.rows|
    ensures var m1, q := FirstJoin(s, c, parse), Position(PreparedShipping(s, parse).rows, PreparedCustoms(c, parse), TIMESTAMP, DATE, i);
      && q < |m1.rows|
      && Carries(m1.rows[q], s.rows[i], s.columns, TIMESTAMP)
      && TIMESTAMP in m1.rows[q]
      && m1.rows[q][TIMESTAMP] == Temporal(ToDatetime(parse, Get(s.rows[i], TIMESTAMP)))
      && (SHIPMENT_ID !in s.columns ==> Get(m1.rows[q], SHIPMENT_ID) == Int(i + 1))
  {
    var s1, c1 := PreparedShipping(s, parse), PreparedCustoms(c, parse);
    LeftMergeKeepsLeftRows(s1, c1, TIMESTAMP, DATE);
    PreparedShippingCells(s, parse, i);
    var q := Position(s1.rows, c1, TIMESTAMP, DATE, i);
    var row, srow := FirstJoin(s, c, parse).rows[q], s1.rows[i];
    assert Extends(row, srow);
    assert Carries(row, s.rows[i], s.columns, TIMESTAMP);
  }

  /** Before the final steps: when neither shipping nor warehouse has a
      shipment_id, some row of the second join carries shipping row i and
      warehouse row i. */
  lemma SecondJoinPairsByPosition(s: Table, c: Table, w: Table, parse: Cell -> Time, i: nat)
    requires WellFormed(s) && WellFormed(c) && WellFormed(w) && Clashless(s, c, w)
    requires Coercible(s, c, w) && SHIPMENT_ID !in c.columns
    requires SHIPMENT_ID !in s.columns && SHIPMENT_ID !in w.columns
    requires i < |s.rows| && i < |w.rows|
    ensures var m2 := SecondJoin(s, c, w, parse);
      exists p ::
        && 0 <= p < |m2.rows|
        && Carries(m2.rows[p], s.rows[i], s.columns, TIMESTAMP)
        && Carries(m2.rows[p], w.rows[i], w.columns, LAST_UPDATED)
        && Get(m2.rows[p], TIMESTAMP) == Temporal(ToDatetime(parse, Get(s.rows[i], TIMESTAMP)))
  {
    var m1, w1, m2 := FirstJoin(s, c, parse), PreparedWarehouse(w, parse), SecondJoin(s, c, w, parse);
    FirstJoinKeepsShippingRow(s, c, parse, i);
    var q := Position(PreparedShipping(s, parse).rows, PreparedCustoms(c, parse), TIMESTAMP, DATE, i);
    PreparedWarehouseCells(w, parse, i);
    LeftMergeHasMatch(m1, w1, SHIPMENT_ID, SHIPMENT_ID, q, i);
    var p :| 0 <= p < |m2.rows| && m2.rows[p] == w1.rows[i] + m1.rows[q];
    var joined, first := m2.rows[p], m1.rows[q];
    JoinsWellFormed(s, c, w, parse);
    assert first.Keys == ColumnSet(m1.columns);
    PreparedColumns(s, c, w, parse);
    ColumnSetAppend(PreparedShipping(s, parse).columns, c.columns);
    assert m1.columns == PreparedShipping(s, parse).columns + c.columns;
    assert ColumnSet(m1.columns) == ColumnSet(s.columns) + {SHIPMENT_ID} + ColumnSet(c.columns);
    forall col | col in w.columns && col != LAST_UPDATED
      ensures col in joined && joined[col] == Get(w.rows[i], col)
    {
      if col != SHIPMENT_ID {
        assert col !in ColumnSet(s.columns) && col !in ColumnSet(c.columns);
        assert col !in first;
        assert joined[col] == w1.rows[i][col];
      }
    }
    assert Carries(joined, s.rows[i], s.columns, TIMESTAMP);
    assert Carries(joined, w.rows[i], w.columns, LAST_UPDATED);
    assert Get(joined, TIMESTAMP) == Get(first, TIMESTAMP);
    assert Get(m2.rows[p], TIMESTAMP) == Temporal(ToDatetime(parse, Get(s.rows[i], TIMESTAMP)));
  }

  /** The weak link of the surrogate keys: when neither shipping nor warehouse
      has a shipment_id, shipping row i is joined with warehouse row i, for no
      other reason than their positions. */
  lemma SurrogateKeysPairByPosition(s: Table, c: Table, w: Table, parse: Cell -> Time, show: int -> string, i: nat)
    requires WellFormed(s) && WellFormed(c) && WellFormed(w) && Clashless(s, c, w)
    requires Coercible(s, c, w) && SHIPMENT_ID !in c.columns
    requires SHIPMENT_ID !in s.columns && SHIPMENT_ID !in w.columns
    requires i < |s.rows| && i < |w.rows|
    ensures var t := Run(s, c, w, parse, show).table;
      exists p ::
        && 0 <= p < |t.rows|
        && ShowsFilled(t.rows[p], s.rows[i], s.columns)
        && ShowsFilled(t.rows[p], w.rows[i], w.columns)
        && Get(t.rows[p], TIMESTAMP) == StringifyCell(Temporal(ToDatetime(parse, Get(s.rows[i], TIMESTAMP))), show)
  {
    var m2 := SecondJoin(s, c, w, parse);
    SecondJoinPairsByPosition(s, c, w, parse, i);
    var p :| && 0 <= p < |m2.rows|
             && Carries(m2.rows[p], s.rows[i], s.columns, TIMESTAMP)
             && Carries(m2.rows[p], w.rows[i], w.columns, LAST_UPDATED)
             && Get(m2.rows[p], TIMESTAMP) == Temporal(ToDatetime(parse, Get(s.rows[i], TIMESTAMP)));
    JoinsWellFormed(s, c, w, parse);
    MergedColumns(s, c, w, parse);
    FinalizedShows(m2, show, p, s.rows[i], s.columns, TIMESTAMP);
    FinalizedShows(m2, show, p, w.rows[i], w.columns, LAST_UPDATED);
    FinalizedRow(m2, show, p, [TIMESTAMP]);
    assert TIMESTAMP in [TIMESTAMP] && IsDatetimeColumn(TIMESTAMP);
    var shown := Get(Finalized(m2, show).rows[p], TIMESTAMP);
    assert shown == StringifyCell(Get(m2.rows[p], TIMESTAMP), show);
    RunMerged(s, c, w, parse, show);
    var t := Run(s, c, w, parse, show).table;
    assert t == Finalized(m2, show);
    assert && 0 <= p < |t.rows|
           && ShowsFilled(t.rows[p], s.rows[i], s.columns)
           && ShowsFilled(t.rows[p], w.rows[i], w.columns)
           && Get(t.rows[p], TIMESTAMP) == StringifyCell(Temporal(ToDatetime(parse, Get(s.rows[i], TIMESTAMP))), show);
  }

  /** A warehouse frame given surrogate keys matches each row of the first
      join at most once, so the second join has exactly its row count. */
  lemma SurrogateWarehouseKeepsRowCount(s: Table, c: Table, w: Table, parse: Cell -> Time)
    requires SHIPMENT_ID !in w.columns
    ensures |SecondJoin(s, c, w, parse).rows| == |FirstJoin(s, c, parse).rows|
  {
    var w1 := PreparedWarehouse(w, parse);
    forall j, k | 0 <= j < k < |w1.rows|
      ensures Get(w1.rows[j], SHIPMENT_ID) != Get(w1.rows[k], SHIPMENT_ID)
    {
      assert w1.rows[j][SHIPMENT_ID] == Int(j + 1);
    }
    LeftMergeUniqueKeys(FirstJoin(s, c, parse), w1, SHIPMENT_ID, SHIPMENT_ID);
  }

  /** One row in each input, none of them with a shipment_id: one merged row. */
  lemma OneRowEachCount(s: Table, c: Table, w: Table, parse: Cell -> Time, show: int -> string)
    requires Coercible(s, c, w) && SHIPMENT_ID !in c.columns && SHIPMENT_ID !in w.columns
    requires |s.rows| == 1 && |c.rows| == 1 && |w.rows| == 1
    ensures Run(s, c, w, parse, show).Merged?
    ensures |Run(s, c, w, parse, show).table.rows| == 1
  {
    RunMerged(s, c, w, parse, show);
    MergedShape(s, c, w, parse, show);
    SurrogateWarehouseKeepsRowCount(s, c, w, parse);
    LeftMergeUniqueKeys(PreparedShipping(s, parse), PreparedCustoms(c, parse), TIMESTAMP, DATE);
  }

  /** That row holds the shipping and the warehouse cells. */
  lemma OneRowEachPaired(s: Table, c: Table, w: Table, parse: Cell -> Time, show: int -> string)
    requires WellFormed(s) && WellFormed(c) && WellFormed(w) && Clashless(s, c, w)
    requires Coercible(s, c, w)
    requires SHIPMENT_ID !in s.columns && SHIPMENT_ID !in c.columns && SHIPMENT_ID !in w.columns
    requires |s.rows| == 1 && |c.rows| == 1 && |w.rows| == 1
    ensures var t := Run(s, c, w, parse, show).table;
      && |t.rows| == 1
      && ShowsFilled(t.rows[0], s.rows[0], s.columns)
      && ShowsFilled(t.rows[0], w.rows[0], w.columns)
      && Get(t.rows[0], TIMESTAMP) == StringifyCell(Temporal(ToDatetime(parse, Get(s.rows[0], TIMESTAMP))), show)
  {
    OneRowEachCount(s, c, w, parse, show);
    SurrogateKeysPairByPosition(s, c, w, parse, show, 0);
    var t := Run(s, c, w, parse, show).table;
    var p :| && 0 <= p < |t.rows|
             && ShowsFilled(t.rows[p], s.rows[0], s.columns)
             && ShowsFilled(t.rows[p], w.rows[0], w.columns)
             && Get(t.rows[p], TIMESTAMP) == StringifyCell(Temporal(ToDatetime(parse, Get(s.rows[0], TIMESTAMP))), show);
    assert p == 0;
  }

  /** When the two times agree, that row also holds the customs cells. */
  lemma OneRowEachMatched(s: Table, c: Table, w: Table, parse: Cell -> Time, show: int -> string)
    requires WellFormed(s) && WellFormed(c) && WellFormed(w) && Clashless(s, c, w)
    requires Coercible(s, c, w) && SHIPMENT_ID !in c.columns && SHIPMENT_ID !in w.columns
    requires |s.rows| == 1 && |c.rows| == 1 && |w.rows| == 1
    requires ToDatetime(parse, Get(c.rows[0], DATE)) == ToDatetime(parse, Get(s.rows[0], TIMESTAMP))
    ensures var t := Run(s, c, w, parse, show).table;
      |t.rows| == 1 && ShowsFilled(t.rows[0], c.rows[0], c.columns)
  {
    OneRowEachCount(s, c, w, parse, show);
    MatchedShippingRow(s, c, w, parse, show, 0, 0);
    var t := Run(s, c, w, parse, show).table;
    var p :| && 0 <= p < |t.rows|
             && ShowsFilled(t.rows[p], c.rows[0], c.columns)
             && ShowsFilled(t.rows[p], s.rows[0], s.columns);
    assert p == 0;
  }

  /** When they do not, its customs Date is "NaT" and every other customs
      column "N/A". */
  lemma OneRowEachUnmatched(s: Table, c: Table, w: Table, parse: Cell -> Time, show: int -> string)
    requires WellFormed(s) && WellFormed(c) && WellFormed(w) && Clashless(s, c, w)
    requires Coercible(s, c, w) && SHIPMENT_ID !in c.columns && SHIPMENT_ID !in w.columns
    requires |s.rows| == 1 && |c.rows| == 1 && |w.rows| == 1
    requires ToDatetime(parse, Get(c.rows[0], DATE)) != ToDatetime(parse, Get(s.rows[0], TIMESTAMP))
    ensures ShowsUnmatched(Run(s, c, w, parse, show).table.rows[0], c.columns)
  {
    UnmatchedShippingRow(s, c, w, parse, show, 0);
    FirstMergedPosition(s, c, w, parse);
    var t, p := Run(s, c, w, parse, show).table, MergedPosition(s, c, w, parse, 0);
    assert p == 0 && ShowsUnmatched(t.rows[p], c.columns);
  }
}
