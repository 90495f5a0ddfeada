/**
 * load_data_to_sqlite and etl_pipeline: the destination store and the run
 * that extracts the three sources, transforms them and loads the result.
 * The SQLite file is a map from table name to table; whether the write
 * succeeds is a parameter.
 */
module Pipeline {
  import opened Wrappers
  import opened Tables
  import opened MergeEngine
  import opened Adapters
  import opened ShippingData
  import Json

  /** The destination table. */
  const TABLE_NAME := "integrated_shipment_data"

  type Store = map<string, Table>

  /** The store after load_data_to_sqlite(df, db_path, name): an empty frame
      is not written; a non-empty one replaces the whole entry under `name`
      (to_sql with if_exists='replace'), unless the connection or the write
      fails, which is caught and leaves the store as it was. */
  function Loaded(store: Store, df: Table, name: string, writeSucceeds: bool): (r: Store)
    ensures IsEmpty(df) || !writeSucceeds ==> r == store
    ensures !IsEmpty(df) && writeSucceeds ==> name in r && r[name] == df
    ensures r.Keys <= store.Keys + {name}
    ensures forall n :: n in store && n != name ==> n in r && r[n] == store[n]
  {
    if IsEmpty(df) || !writeSucceeds then store else store[name := df]
  }

  /** The SQLite database file that the pipeline writes. */
  class Database {
    var tables: Store

    constructor (initial: Store)
      ensures tables == initial
    {
      tables := initial;
    }

    /** load_data_to_sqlite(transformed_df, db_path, table_name) */
    method LoadDataToSqlite(df: Table, name: string, writeSucceeds: bool)
      modifies this
      ensures tables == Loaded(old(tables), df, name, writeSucceeds)
    {
      if IsEmpty(df) {
        return;
      }
      if writeSucceeds {
        tables := tables[name := df];
      }
    }
  }

  /** What a run computes: the frame transform_data returns, or the exception
      from extract_shipping_data that ends the run. */
  function Integrated(response: HttpResult, csv: CsvRead, sql: SqlRead,
                      parse: Cell -> Time, show: int -> string): (r: Result<Table, PyError>)
    ensures r.Failure? <==> ExtractShippingData(response).Failure?
    ensures r.Success? && !IsEmpty(r.value) ==>
      && WellShaped(response)
      && csv.CsvOk? && !IsEmpty(csv.table)
      && sql.SqlOk? && !IsEmpty(sql.table)
  {
    var shipping :- ExtractShippingData(response);
    Success(Transform(shipping, ExtractCustomsData(csv), ExtractWarehouseData(sql), parse, show))
  }

  /** The store after a run. */
  function StoreAfterRun(store: Store, response: HttpResult, csv: CsvRead, sql: SqlRead,
                         parse: Cell -> Time, show: int -> string, writeSucceeds: bool): (r: Store)
    ensures var run := Integrated(response, csv, sql, parse, show);
      run.Success? && !IsEmpty(run.value) && writeSucceeds ==> r == store[TABLE_NAME := run.value]
    ensures var run := Integrated(response, csv, sql, parse, show);
      !(run.Success? && !IsEmpty(run.value) && writeSucceeds) ==> r == store
  {
    match Integrated(response, csv, sql, parse, show)
    case Success(t) => Loaded(store, t, TABLE_NAME, writeSucceeds)
    case Failure(_) => store
  }

  /** etl_pipeline(): extract the three sources, transform them, and load the
      result only when it is not empty.  An exception from the shipping
      extractor is not caught and ends the run before anything is written. */
  method EtlPipeline(db: Database, response: HttpResult, csv: CsvRead, sql: SqlRead,
                     parse: Cell -> Time, show: int -> string, writeSucceeds: bool)
    returns (run: Result<Table, PyError>)
    modifies db
    ensures run == Integrated(response, csv, sql, parse, show)
    ensures db.tables == StoreAfterRun(old(db.tables), response, csv, sql, parse, show, writeSucceeds)
  {
    var extracted := ExtractShippingData(response);
    if extracted.Failure? {
      return Failure(extracted.error);
    }
    var shipping := new Frame(extracted.value);
    var customs := new Frame(ExtractCustomsData(csv));
    var warehouse := new Frame(ExtractWarehouseData(sql));
    var transformed := TransformData(shipping, customs, warehouse, parse, show);
    if !IsEmpty(transformed) {
      db.LoadDataToSqlite(transformed, TABLE_NAME, writeSucceeds);
    }
    return Success(transformed);
  }

  /** A run changes no table of the store but integrated_shipment_data. */
  lemma OnlyTheDestinationChanges(store: Store, response: HttpResult, csv: CsvRead, sql: SqlRead,
                                  parse: Cell -> Time, show: int -> string, writeSucceeds: bool)
    ensures var after := StoreAfterRun(store, response, csv, sql, parse, show, writeSucceeds);
      && after.Keys <= store.Keys + {TABLE_NAME}
      && forall n :: n in store && n != TABLE_NAME ==> n in after && after[n] == store[n]
  {
  }

  /** A source that yields nothing (a missing CSV file, say) leaves the
      destination as it was. */
  lemma EmptySourceLeavesStore(store: Store, response: HttpResult, csv: CsvRead, sql: SqlRead,
                               parse: Cell -> Time, show: int -> string, writeSucceeds: bool)
    requires IsEmpty(ExtractCustomsData(csv)) || IsEmpty(ExtractWarehouseData(sql))
             || !WellShaped(response)
    ensures StoreAfterRun(store, response, csv, sql, parse, show, writeSucceeds) == store
  {
    match Integrated(response, csv, sql, parse, show)
    case Success(t) =>
      assert IsEmpty(t);
    case Failure(_) =>
  }

  /** A run whose transform succeeds and whose write succeeds leaves exactly
      the integrated frame under integrated_shipment_data: no row of what was
      there before survives. */
  lemma SuccessfulRunReplaces(store: Store, response: HttpResult, csv: CsvRead, sql: SqlRead,
                              parse: Cell -> Time, show: int -> string, t: Table)
    requires Integrated(response, csv, sql, parse, show) == Success(t) && !IsEmpty(t)
    ensures var after := StoreAfterRun(store, response, csv, sql, parse, show, true);
      && TABLE_NAME in after
      && after[TABLE_NAME] == t
      && after == store[TABLE_NAME := t]
  {
  }

  /** Replace, not append: loading a second frame under the same name leaves
      only the second one. */
  lemma LastLoadWins(store: Store, a: Table, b: Table, name: string)
    requires !IsEmpty(b)
    ensures Loaded(Loaded(store, a, name, true), b, name, true) == Loaded(store, b, name, true)
  {
    var once := Loaded(store, a, name, true);
    assert once.Keys + {name} == store.Keys + {name};
  }

  /** Running the pipeline twice on the same sources leaves the store as one
      run does. */
  lemma RerunLeavesSameStore(store: Store, response: HttpResult, csv: CsvRead, sql: SqlRead,
                             parse: Cell -> Time, show: int -> string, writeSucceeds: bool)
    ensures var once := StoreAfterRun(store, response, csv, sql, parse, show, writeSucceeds);
      StoreAfterRun(once, response, csv, sql, parse, show, writeSucceeds) == once
  {
    match Integrated(response, csv, sql, parse, show)
    case Success(t) =>
      if !IsEmpty(t) && writeSucceeds {
        LastLoadWins(store, t, t, TABLE_NAME);
      }
    case Failure(_) =>
  }

  /** When all three sources are read and transform_data merges them, the
      run yields the merged frame and a successful write stores it under
      integrated_shipment_data. */
  lemma MergedRunIsLoaded(store: Store, response: HttpResult, csv: CsvRead, sql: SqlRead,
                          parse: Cell -> Time, show: int -> string)
    requires ExtractShippingData(response).Success? && csv.CsvOk? && sql.SqlOk?
    requires Run(ExtractShippingData(response).value, csv.table, sql.table, parse, show).Merged?
    ensures var t := Run(ExtractShippingData(response).value, csv.table, sql.table, parse, show).table;
      && Integrated(response, csv, sql, parse, show) == Success(t)
      && StoreAfterRun(store, response, csv, sql, parse, show, true) == store[TABLE_NAME := t]
  {
    var s := ExtractShippingData(response).value;
    var t := Run(s, csv.table, sql.table, parse, show).table;
    assert Transform(s, ExtractCustomsData(csv), ExtractWarehouseData(sql), parse, show) == t;
    assert Integrated(response, csv, sql, parse, show) == Success(t);
  }

  /** An example run with one position fix, one customs row and one
      warehouse row. */
  const ScenarioResponse := Response(200, Some(Json.Object(map[
    ISS_POSITION := Json.Object(map[LATITUDE := Json.Str("1.23"), LONGITUDE := Json.Str("4.56")]),
    TIMESTAMP := Json.Int(1700000000)])))
  const ScenarioShipping := ShippingFrame(Json.Str("1.23"), Json.Str("4.56"), Json.Int(1700000000))
  const ScenarioCustoms := Table([DATE, "Amount"], [map[DATE := Str("2023-11-14"), "Amount" := Int(500)]])
  const ScenarioWarehouse := Table([LAST_UPDATED, "location"], [map[LAST_UPDATED := Str("2023-11-14"), "location" := Str("WH1")]])

  lemma ScenarioExtracted()
    ensures ExtractShippingData(ScenarioResponse) == Success(ScenarioShipping)
  {
    var data := ScenarioResponse.body.value;
    assert Contains(data, ISS_POSITION) == Success(true);
    assert Member(data, TIMESTAMP);
    var position := data.fields[ISS_POSITION];
    assert Subscript(data, ISS_POSITION) == Success(position);
    assert Subscript(position, LATITUDE) == Success(Json.Str("1.23"));
    assert Subscript(position, LONGITUDE) == Success(Json.Str("4.56"));
  }

  lemma ScenarioInputs()
    ensures WellFormed(ScenarioShipping) && WellFormed(ScenarioCustoms) && WellFormed(ScenarioWarehouse)
    ensures Clashless(ScenarioShipping, ScenarioCustoms, ScenarioWarehouse)
    ensures Coercible(ScenarioShipping, ScenarioCustoms, ScenarioWarehouse)
    ensures SHIPMENT_ID !in ScenarioShipping.columns && SHIPMENT_ID !in ScenarioCustoms.columns
    ensures SHIPMENT_ID !in ScenarioWarehouse.columns
  {
    ScenarioShippingShape();
    ScenarioCustomsShape();
    ScenarioWarehouseShape();
  }

  lemma ScenarioShippingShape()
    ensures WellFormed(ScenarioShipping)
    ensures ScenarioShipping.columns == [LATITUDE, LONGITUDE, TIMESTAMP]
  {
    assert ColumnSet(ScenarioShipping.columns) == {LATITUDE, LONGITUDE, TIMESTAMP};
  }

  lemma ScenarioCustomsShape()
    ensures WellFormed(ScenarioCustoms)
  {
    assert ColumnSet(ScenarioCustoms.columns) == {DATE, "Amount"};
  }

  lemma ScenarioWarehouseShape()
    ensures WellFormed(ScenarioWarehouse)
  {
    assert ColumnSet(ScenarioWarehouse.columns) == {LAST_UPDATED, "location"};
  }

  lemma ScenarioCells()
    ensures LATITUDE in ScenarioShipping.columns && LONGITUDE in ScenarioShipping.columns
    ensures Get(ScenarioShipping.rows[0], LATITUDE) == Str("1.23")
    ensures Get(ScenarioShipping.rows[0], LONGITUDE) == Str("4.56")
    ensures Get(ScenarioShipping.rows[0], TIMESTAMP) == Int(1700000000)
    ensures "Amount" in ScenarioCustoms.columns && Get(ScenarioCustoms.rows[0], "Amount") == Int(500)
    ensures Get(ScenarioCustoms.rows[0], DATE) == Str("2023-11-14")
    ensures "location" in ScenarioWarehouse.columns && Get(ScenarioWarehouse.rows[0], "location") == Str("WH1")
  {
    ScenarioColumns();
  }

  /** None of the example run's other columns is a datetime column. */
  lemma ScenarioColumns()
    ensures !IsDatetimeColumn(LATITUDE) && !IsDatetimeColumn(LONGITUDE)
    ensures !IsDatetimeColumn("Amount") && !IsDatetimeColumn("location")
  {
  }

  /** Three one-row frames with the example run's cells merge into one row with
      the position, the stringified timestamp and the warehouse location, and
      the customs Amount or, when the times differ, the sentinels. */
  lemma ScenarioMerged(s: Table, c: Table, w: Table, parse: Cell -> Time, show: int -> string)
    requires WellFormed(s) && WellFormed(c) && WellFormed(w) && Clashless(s, c, w)
    requires Coercible(s, c, w)
    requires SHIPMENT_ID !in s.columns && SHIPMENT_ID !in c.columns && SHIPMENT_ID !in w.columns
    requires |s.rows| == 1 && |c.rows| == 1 && |w.rows| == 1
    requires LATITUDE in s.columns && LONGITUDE in s.columns
    requires "Amount" in c.columns && "location" in w.columns
    requires Get(s.rows[0], LATITUDE) == Str("1.23") && Get(s.rows[0], LONGITUDE) == Str("4.56")
    requires Get(s.rows[0], TIMESTAMP) == Int(1700000000)
    requires Get(c.rows[0], DATE) == Str("2023-11-14") && Get(c.rows[0], "Amount") == Int(500)
    requires Get(w.rows[0], "location") == Str("WH1")
    ensures |Run(s, c, w, parse, show).table.rows| == 1
    ensures Get(Run(s, c, w, parse, show).table.rows[0], LATITUDE) == Str("1.23")
    ensures Get(Run(s, c, w, parse, show).table.rows[0], LONGITUDE) == Str("4.56")
    ensures Get(Run(s, c, w, parse, show).table.rows[0], "location") == Str("WH1")
    ensures Get(Run(s, c, w, parse, show).table.rows[0], TIMESTAMP)
      == StringifyCell(Temporal(parse(Int(1700000000))), show)
    ensures parse(Int(1700000000)) == parse(Str("2023-11-14")) ==>
      Get(Run(s, c, w, parse, show).table.rows[0], "Amount") == Int(500)
    ensures parse(Int(1700000000)) != parse(Str("2023-11-14")) ==>
      && Get(Run(s, c, w, parse, show).table.rows[0], "Amount") == Str(FILL)
      && Get(Run(s, c, w, parse, show).table.rows[0], DATE) == Str(NAT)
  {
    OneRowEachPaired(s, c, w, parse, show);
    var t := Run(s, c, w, parse, show).table;
    ScenarioColumns();
    if parse(Int(1700000000)) == parse(Str("2023-11-14")) {
      OneRowEachMatched(s, c, w, parse, show);
    } else {
      OneRowEachUnmatched(s, c, w, parse, show);
    }
  }

  /** The example run yields one integrated row with the position, the stringified
      timestamp and the warehouse location.  The customs Amount joins it only
      when the parser reads the epoch timestamp and the customs Date as the
      same instant; otherwise the row carries "N/A" for Amount and "NaT" for
      Date.  A successful write stores that row under integrated_shipment_data. */
  lemma EndToEndScenario(store: Store, parse: Cell -> Time, show: int -> string)
    ensures var r := Integrated(ScenarioResponse, CsvOk(ScenarioCustoms), SqlOk(ScenarioWarehouse), parse, show);
      var after := StoreAfterRun(store, ScenarioResponse, CsvOk(ScenarioCustoms), SqlOk(ScenarioWarehouse), parse, show, true);
      var joins := parse(Int(1700000000)) == parse(Str("2023-11-14"));
      && r.Success?
      && after == store[TABLE_NAME := r.value]
      && |r.value.rows| == 1
      && Get(r.value.rows[0], LATITUDE) == Str("1.23")
      && Get(r.value.rows[0], LONGITUDE) == Str("4.56")
      && Get(r.value.rows[0], TIMESTAMP) == StringifyCell(Temporal(parse(Int(1700000000))), show)
      && Get(r.value.rows[0], "location") == Str("WH1")
      && Get(r.value.rows[0], "Amount") == (if joins then Int(500) else Str(FILL))
      && (!joins ==> Get(r.value.rows[0], DATE) == Str(NAT))
  {
    ScenarioExtracted();
    ScenarioRun(parse, show);
    MergedRunIsLoaded(store, ScenarioResponse, CsvOk(ScenarioCustoms), SqlOk(ScenarioWarehouse), parse, show);
  }

  /** ScenarioMerged, applied to the example run's three frames. */
  lemma ScenarioRun(parse: Cell -> Time, show: int -> string)
    ensures Coercible(ScenarioShipping, ScenarioCustoms, ScenarioWarehouse)
    ensures SHIPMENT_ID !in ScenarioCustoms.columns
    ensures var t := Run(ScenarioShipping, ScenarioCustoms, ScenarioWarehouse, parse, show).table;
      var joins := parse(Int(1700000000)) == parse(Str("2023-11-14"));
      && |t.rows| == 1
      && Get(t.rows[0], LATITUDE) == Str("1.23")
      && Get(t.rows[0], LONGITUDE) == Str("4.56")
      && Get(t.rows[0], TIMESTAMP) == StringifyCell(Temporal(parse(Int(1700000000))), show)
      && Get(t.rows[0], "location") == Str("WH1")
      && Get(t.rows[0], "Amount") == (if joins then Int(500) else Str(FILL))
      && (!joins ==> Get(t.rows[0], DATE) == Str(NAT))
  {
    ScenarioInputs();
    ScenarioCells();
    ScenarioMerged(ScenarioShipping, ScenarioCustoms, ScenarioWarehouse, parse, show);
  }
}
