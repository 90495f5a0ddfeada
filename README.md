# Freight data integration: the merge core

This project models the extract–transform–load core of a small freight-data
integration pipeline. The pipeline does four things:

- It reads a position fix from an HTTP API (`extract_shipping_data`).
- It reads customs records from a CSV file (`extract_customs_data`) and
  warehouse records from a SQLite table (`extract_warehouse_data`).
- It merges the three pandas frames into one denormalised frame
  (`transform_data`).
- It writes that frame to the table `integrated_shipment_data`
  (`load_data_to_sqlite`). `etl_pipeline` runs the three steps in order.

`etl_pipeline.py` and `etl_pipeline_revised.py` differ only in comments and
log text. One model serves both. From line 13 on, every line of
`etl_pipeline_revised.py` sits one line later in `etl_pipeline.py`. The table
below cites whichever copy is more convenient.

## Modules

- `Tables` (tables.dfy) models a pandas frame as a `Table`:
  - an ordered list of column names;
  - a sequence of rows, each mapping column names to a `Cell` (`Null`, `Str`,
    `Int`, `Temporal` or an opaque JSON value).

  `Frame` is a class for a frame the program updates in place. Its
  `Assign` is `df[c] = ...` and its `FillNa` is `fillna(..., inplace=True)`.
- `Merge` (merge.dfy) models `pd.merge(..., how='left')` on one key column on
  each side:
  - each left row yields one joined row per matching right row, in right-row
    order;
  - a left row with no match yields one row padded with missing cells;
  - missing keys match each other, as in pandas;
  - with `on=` the right key column is dropped.
- `MergeEngine` (merge_engine.dfy) models `transform_data`:
  - `Run` and `Transform` give what it returns;
  - `ShippingAfter`, `CustomsAfter` and `WarehouseAfter` give what it leaves in
    the caller's frames, which it changes in place;
  - the method `TransformData` performs the steps on `Frame` objects and is
    proved equal to those functions;
  - `Finalize` is the stringify loop and the fill.
- `Adapters` (adapters.dfy) holds the CSV and SQLite adapters. The read's
  outcome is a parameter: a table, or one of the faults the source catches.
- `ShippingData` (shipping_data.dfy) holds the HTTP adapter over an abstract
  response: a transport failure, or a status with a decoded JSON body or none.
  It follows Python's semantics for `in` and for subscripting. The exceptions
  the source does not catch become `Failure(KeyError(..))` or
  `Failure(TypeError)`.
- `Pipeline` (pipeline.dfy) models the destination as a map from table name to
  table:
  - the `Database` class holds that map;
  - `LoadDataToSqlite` and `EtlPipeline` are methods, proved equal to
    `Loaded` and `StoreAfterRun`.

Some of the pipeline's inputs are parameters of the model:

- The date parser (`parse: Cell -> Time`, where `Unparsed` is pandas' `NaT`).
- The datetime formatter (`show: int -> string`).
- The outcome of every read and write.

## Model

| member | source | states |
|---|---|---|
| Adapters.ExtractCustomsData | etl_pipeline_revised.py:15-30 | a successful read is returned unchanged; a missing file, an empty file or any other fault gives the empty frame; the result is empty exactly when the read failed or read an empty frame |
| Adapters.ExtractWarehouseData | etl_pipeline.py:34-49 | a successful query is returned unchanged; a sqlite3.Error or any other fault gives the empty frame; the result is empty exactly when the read failed or returned an empty frame |
| ShippingData.Contains | shipping_data.py:26 | `key in data` fails with TypeError exactly on a value that is not a container, and on a dict it is key membership |
| ShippingData.Subscript | shipping_data.py:29-31 | `v[key]` succeeds exactly on a dict holding the key and yields that entry; a dict without it raises KeyError(key); any other value raises TypeError |
| ShippingData.CellOf | shipping_data.py:28-33 | the cell pandas stores for a JSON value gives back that same value, and is missing exactly when the value is null |
| ShippingData.ExtractShippingData | shipping_data.py:16-44 | a 200 response whose object body has iss_position (an object with latitude and longitude) and timestamp gives a one-row frame with columns latitude, longitude, timestamp holding those values unchanged; a transport failure, another status, an undecodable body or a missing top-level key gives the empty frame; a missing latitude or longitude raises KeyError, and a non-object iss_position raises TypeError; a decoded body that is not a container raises TypeError at the `in` test, and a list or str body holding both key names raises TypeError at the subscript, while one lacking either gives the empty frame; none of these exceptions is caught; the result is non-empty exactly for the well-shaped response |
| ShippingData.ShippingFrame | shipping_data.py:28-33 | the flattened frame is well formed and non-empty, has the columns latitude, longitude, timestamp and one row, and each cell gives back the JSON value it was built from |
| Tables.IsEmpty | etl_pipeline_revised.py:56 | `DataFrame.empty` holds exactly when the frame has no columns or no rows, so `pd.DataFrame()` is empty |
| Tables.WithColumn | etl_pipeline_revised.py:62-70 | `df[c] = cells` keeps an existing column's position or appends a new one last, keeps the row count, puts cells[k] in row k and leaves every other cell as it was |
| Tables.Filled | etl_pipeline_revised.py:80 | fillna keeps columns, row count and every row's keys; each missing cell becomes the fill value and every other cell is unchanged; no cell is missing afterwards when the fill value is not missing; the frame stays well formed |
| Tables.Frame.Assign | etl_pipeline_revised.py:62-64 | `df[c] = cells` replaces column c in place, or appends it as the last column, and keeps the frame well formed |
| Tables.Frame.FillNa | etl_pipeline_revised.py:80 | the in-place fillna leaves the frame equal to Filled of its old value |
| Merge.Matches | etl_pipeline_revised.py:73 | the right rows a key value matches: exactly the rows whose key cell equals it |
| Merge.MatchesAppend | etl_pipeline_revised.py:73 | the matches of a concatenation are the matches of the first part followed by those of the second, so matches come in right-row order |
| Merge.MatchesCount | etl_pipeline_revised.py:73 | each matching right row is kept once: the number of matches is the number of right-row indices whose key equals the value |
| Merge.LeftMerge | etl_pipeline_revised.py:73-74 | a left merge has at least as many rows as its left frame |
| Merge.NoMatches | etl_pipeline_revised.py:73 | a key value that no right row carries matches nothing |
| Merge.Without | etl_pipeline_revised.py:74 | dropping the right key column after a merge with `on=` removes exactly that name and keeps names distinct |
| Merge.NullRow | etl_pipeline_revised.py:73 | the padding for an unmatched left row has a missing cell in every right column |
| Merge.JoinRow | etl_pipeline_revised.py:73 | one left row yields max(1, number of matches) rows, each holding all of the left row's cells |
| Merge.SumFanout | etl_pipeline_revised.py:73 | the merged row count is never below the left row count |
| Merge.JoinRowsLength | etl_pipeline_revised.py:73 | the left merge has as many rows as the sum of the per-row fan-outs |
| Merge.JoinRowsAppend | etl_pipeline_revised.py:73 | merging a concatenation of left rows is the concatenation of the merges, and the fan-outs add up |
| Merge.JoinRowsBlock | etl_pipeline_revised.py:73 | left row i yields the consecutive block of merged rows starting at its position, of length its fan-out |
| Merge.LeftMergeRowCount | etl_pipeline_revised.py:73 | output length is the sum over left rows of max(1, number of matching right rows), hence at least the left row count |
| Merge.PositionsIncrease | etl_pipeline_revised.py:73 | the blocks of later left rows start strictly later |
| Merge.LeftMergeKeepsLeftRows | etl_pipeline_revised.py:73 | every left row appears in the output with all its cells, and in the original order |
| Merge.LeftMergeUnmatchedRow | etl_pipeline_revised.py:73 | a left row without a match yields a row with a missing cell in every right column it lacks |
| Merge.LeftMergeMatchedRows | etl_pipeline_revised.py:73 | a left row with matches yields one row per match, each the right row's cells overlaid with the left row's, in right-row order |
| Merge.JoinRowMatch | etl_pipeline_revised.py:73 | the k-th row a left row yields is its k-th match overlaid with it |
| Merge.JoinRowKeys | etl_pipeline_revised.py:73 | each joined row has exactly the left row's columns plus the right columns |
| Merge.JoinRowsKeys | etl_pipeline_revised.py:73 | every merged row has exactly the left columns plus the right columns |
| Merge.LeftMergeWellFormed | etl_pipeline_revised.py:73-74 | with no clashing column names, the merge of well-formed frames is well formed |
| Merge.LeftMergeHasMatch | etl_pipeline_revised.py:73-74 | a left row and a right row with equal keys appear together in some merged row |
| Merge.AtMostOneMatch | etl_pipeline_revised.py:74 | a key column with no repeated value matches any value at most once |
| Merge.SumFanoutUnique | etl_pipeline_revised.py:74 | against right rows with distinct keys every left row yields exactly one row |
| Merge.LeftMergeUniqueKeys | etl_pipeline_revised.py:74 | merging against distinct right keys keeps the left row count exactly |
| MergeEngine.ToDatetime | etl_pipeline_revised.py:62-64 | to_datetime with errors='coerce' turns a missing cell into NaT, keeps a datetime, and hands every other cell to the parser |
| MergeEngine.Coerced | etl_pipeline_revised.py:62-64 | to_datetime with errors='coerce' replaces the column by parsed times, with a missing cell as NaT and every other cell unchanged |
| MergeEngine.WithSurrogateKey | etl_pipeline.py:68-71 | a frame without shipment_id gets it as the last column, holding 1..n in row order, with every other cell unchanged; a frame that has one is left alone |
| MergeEngine.StringifyCell | etl_pipeline_revised.py:78 | astype(str) of a datetime cell is never missing: a known time becomes its text, NaT or a missing cell becomes "NaT", and a non-datetime cell is kept |
| MergeEngine.StringifyColumn | etl_pipeline_revised.py:78 | `df[c] = df[c].astype(str)` on a column of the frame keeps the columns and row count, puts the text of each old cell of c in its place, and leaves every other cell as it was |
| MergeEngine.Finalized | etl_pipeline_revised.py:77-80 | the stringify loop and the fill keep the columns and row count and leave no missing cell |
| MergeEngine.FirstJoin | etl_pipeline_revised.py:73 | the timestamp/Date join has at least as many rows as shipping |
| MergeEngine.SecondJoin | etl_pipeline_revised.py:74 | the shipment_id join has at least as many rows as shipping |
| MergeEngine.DatetimeColumns | etl_pipeline_revised.py:77 | select_dtypes picks exactly the frame's datetime columns |
| MergeEngine.Run | etl_pipeline_revised.py:56-86 | the guard skips exactly when some input is empty; the merge completes exactly when the three datetime columns exist and customs has no shipment_id; a completed merge is non-empty and has at least as many rows as shipping |
| MergeEngine.Transform | etl_pipeline_revised.py:56-86 | the returned frame is empty exactly when the guard skipped or a fault was caught |
| MergeEngine.ShippingAfter | etl_pipeline_revised.py:62-68 | the caller's shipping frame keeps its rows and columns and gains shipment_id exactly when all three coercions ran |
| MergeEngine.CustomsAfter | etl_pipeline_revised.py:63 | the caller's customs frame keeps its rows and columns and never gains shipment_id |
| MergeEngine.WarehouseAfter | etl_pipeline_revised.py:64-70 | the caller's warehouse frame keeps its rows and columns and gains shipment_id exactly when all three coercions ran |
| MergeEngine.TransformData | etl_pipeline_revised.py:51-86 | the in-place steps return Transform of the inputs and leave the three frames as ShippingAfter, CustomsAfter and WarehouseAfter say |
| MergeEngine.Finalize | etl_pipeline_revised.py:77-80 | the column loop followed by the in-place fill computes Finalized |
| MergeEngine.StringifyCellIdempotent | etl_pipeline_revised.py:78 | astype(str) never leaves a missing cell and is idempotent |
| MergeEngine.StringifyColumnsCells | etl_pipeline_revised.py:77-78 | after the loop each listed column holds the text of its old cell and every other cell is unchanged |
| MergeEngine.FinalizedCells | etl_pipeline.py:78-81 | no cell is missing afterwards: datetime columns hold their text, "NaT" for a missing time, and every other missing cell holds "N/A" |
| MergeEngine.MergedShape | etl_pipeline_revised.py:73-74 | the merged columns are the prepared shipping columns, then the customs columns, then the warehouse columns without shipment_id; second join rows >= first join rows >= shipping rows |
| MergeEngine.PreparedWellFormed | etl_pipeline_revised.py:62-70 | coercion and the surrogate keys keep the three frames well formed |
| MergeEngine.PreparedColumns | etl_pipeline_revised.py:62-70 | after preparation, shipping and warehouse have their columns plus shipment_id, and customs has its own |
| MergeEngine.RunMerged | etl_pipeline_revised.py:60-82 | when the columns exist and customs has no shipment_id, the try block runs to its return |
| MergeEngine.JoinsWellFormed | etl_pipeline_revised.py:73-74 | with no clashing column names, both joins give well-formed frames |
| MergeEngine.MergedTableCells | etl_pipeline_revised.py:73-80 | the returned frame is well formed, has no missing cell, and has the columns and rows of the second join, each cell stringified or filled |
| MergeEngine.PreparedShippingCells | etl_pipeline_revised.py:62-68 | prepared shipping rows keep every cell but the coerced timestamp, and a synthesised shipment_id of row i is i+1 |
| MergeEngine.PreparedWarehouseCells | etl_pipeline_revised.py:64-70 | prepared warehouse rows keep every cell but last_updated, and a synthesised shipment_id of row j is j+1 |
| MergeEngine.PreparedCustomsCells | etl_pipeline_revised.py:63 | prepared customs rows keep every cell but the coerced Date |
| MergeEngine.SecondJoinKeepsRow | etl_pipeline.py:75 | every row of the first join reappears, with all its cells, in the second join |
| MergeEngine.FirstJoinUnmatched | etl_pipeline.py:74 | a shipping row whose time equals no customs Date keeps its cells and has a missing cell in every customs column |
| MergeEngine.FirstJoinMatched | etl_pipeline_revised.py:73 | a shipping row and a customs row with equal times share a first-join row holding the cells of both |
| MergeEngine.MergedColumns | etl_pipeline_revised.py:73-74 | every input column is a column of the merged frame |
| MergeEngine.FinalizedRow | etl_pipeline_revised.py:77-80 | a merged row shows each non-datetime cell filled with "N/A" where it was missing |
| MergeEngine.SecondJoinUnmatched | etl_pipeline_revised.py:73-74 | an unmatched shipping row still has missing customs cells after the second join |
| MergeEngine.UnmatchedShippingRow | etl_pipeline_revised.py:73-80 | an unmatched shipping row ends with "NaT" as Date, "N/A" in every other customs column, and its own cells |
| MergeEngine.MatchedShippingRow | etl_pipeline_revised.py:73-80 | a shipping row and a customs row with equal times end in one output row showing the cells of both |
| MergeEngine.CoercedFixed | etl_pipeline_revised.py:62-64 | coercing a column that already holds datetimes changes nothing |
| MergeEngine.CoercedTwice | etl_pipeline_revised.py:62-64 | coercion is idempotent |
| MergeEngine.PreparedTwice | etl_pipeline_revised.py:62-70 | preparing already prepared frames changes nothing |
| MergeEngine.RerunIsStable | etl_pipeline_revised.py:51-86 | calling transform_data again on the frames the first call mutated returns the same frame and leaves the same frames |
| MergeEngine.FirstJoinKeepsShippingRow | etl_pipeline_revised.py:73 | each shipping row reappears in the first join with its cells, its coerced timestamp and its surrogate key i+1 |
| MergeEngine.SecondJoinPairsByPosition | etl_pipeline_revised.py:67-74 | without natural keys, some row of the second join carries shipping row i, its coerced timestamp, and warehouse row i |
| MergeEngine.FinalizedShows | etl_pipeline_revised.py:77-80 | a joined row carrying a source row's cells shows them, filled with "N/A" where missing, after the final steps |
| MergeEngine.SurrogateKeysPairByPosition | etl_pipeline_revised.py:67-74 | without natural keys, shipping row i is joined with warehouse row i, for no reason but their positions |
| MergeEngine.SurrogateWarehouseKeepsRowCount | etl_pipeline_revised.py:69-74 | a warehouse frame given surrogate keys leaves the second join with the first join's row count |
| MergeEngine.OneRowEachCount | etl_pipeline_revised.py:56-82 | three one-row frames without shipment_id in customs or warehouse merge into exactly one row |
| MergeEngine.OneRowEachPaired | etl_pipeline_revised.py:67-82 | that row shows the shipping and warehouse cells and the stringified shipping time |
| MergeEngine.OneRowEachMatched | etl_pipeline_revised.py:73-82 | when the two times agree it also shows the customs cells |
| MergeEngine.OneRowEachUnmatched | etl_pipeline_revised.py:73-82 | when they differ that row's Date is "NaT" and every other customs column "N/A" |
| Pipeline.Loaded | etl_pipeline_revised.py:89-104 | an empty frame or a failed write leaves the store as it was; otherwise the named entry becomes exactly the frame, and every other entry is unchanged |
| Pipeline.Database.LoadDataToSqlite | etl_pipeline_revised.py:89-104 | the in-place write leaves the store equal to Loaded of the old store |
| Pipeline.Integrated | etl_pipeline_revised.py:107-114 | the run fails exactly when the shipping extractor raises, and a non-empty result needs a well-shaped response and two non-empty reads |
| Pipeline.StoreAfterRun | etl_pipeline_revised.py:107-124 | the destination entry becomes the integrated frame exactly when the run succeeds with a non-empty frame and the write succeeds; otherwise the store is unchanged |
| Pipeline.EtlPipeline | etl_pipeline_revised.py:107-124 | the run returns Integrated and loads only a non-empty result, leaving the store as StoreAfterRun says |
| Pipeline.OnlyTheDestinationChanges | etl_pipeline_revised.py:101 | a run changes no table but integrated_shipment_data |
| Pipeline.EmptySourceLeavesStore | etl_pipeline.py:118-119 | a source that yields nothing leaves the store as it was |
| Pipeline.SuccessfulRunReplaces | etl_pipeline.py:102 | a non-empty result with a successful write replaces the destination entry with exactly that frame |
| Pipeline.LastLoadWins | etl_pipeline_revised.py:101 | loading A and then B under one name leaves only B |
| Pipeline.RerunLeavesSameStore | etl_pipeline_revised.py:107-124 | a second run on the same sources leaves the store as one run does |
| Pipeline.MergedRunIsLoaded | etl_pipeline_revised.py:114-124 | a merged run returns the merged frame, and a successful write stores it under integrated_shipment_data |
| Pipeline.ScenarioExtracted | shipping_data.py:21-34 | the example run's response flattens to the frame latitude "1.23", longitude "4.56", timestamp 1700000000 |
| Pipeline.ScenarioMerged | etl_pipeline_revised.py:56-82 | frames with the example run's cells merge into one row with the position, the location, the shipping time's text, and Amount 500 when the times agree, "N/A" and Date "NaT" otherwise |
| Pipeline.ScenarioRun | etl_pipeline_revised.py:56-82 | the same, for the example run's three frames |
| Pipeline.EndToEndScenario | etl_pipeline_revised.py:107-124 | the example run yields that row and stores it under integrated_shipment_data |

## Left out

- I/O is left out: the HTTP request, the CSV read, the SQLite query, the connection handling and `to_sql`. Their outcomes are parameters (`HttpResult`, `CsvRead`, `SqlRead`, `writeSucceeds`).
- Closing the warehouse connection on the error path is left out. It is a resource matter with no effect on the data.
- `print` logging is left out; it has no effect on any result.
- Date parsing and datetime formatting are left out. They are pandas library semantics, so `parse` and `show` are uninterpreted parameters. Two consequences:
  - The model does not say how an integer epoch value is read.
  - Whether `1700000000` and `"2023-11-14"` are the same instant is up to the parser.
- Per-column inference in `pd.to_datetime` and `astype(str)` is left out. `parse` and `show` work cell by cell, whereas `pd.to_datetime` picks one format for a whole column from its first non-null value, and `astype(str)` drops the time of day only when every value in the column is at midnight.
- Time zones, and pandas' choice between `datetime64[ns]` and `object` dtypes, are left out.
- Numeric meaning is left out: latitude and longitude are carried as the JSON values they are. Integer columns are not upcast to float when a left merge pads them with missing cells.
- pandas' `_x`/`_y` suffixing of clashing column names is left out. The lemmas about cell contents require `Clashless`: the only name two inputs may share is `shipment_id`. One clash is modelled, because it decides the outcome: a customs `shipment_id` makes the second merge raise, and the result is empty.
- A merge error from mismatched key dtypes is left out, such as an object `Date` column that is not datetime after coercion.
- Aliasing is left out: `TransformData` requires three distinct frames, as `etl_pipeline` always passes.
- A write that fails halfway is left out. `Loaded` treats a write as all or nothing.
- ShippingData.ExtractShippingData: an undecodable body is treated as the `RequestException` that `response.json()` raises in requests 2.27 and later (an empty frame). Earlier requests versions raise a plain `ValueError`, which would escape; that case is not modelled.
- The Flask read endpoint, the Airflow DAG and the web front end are not part of this model.

## Behaviour worth knowing

- An unmatched shipping row's Date holds "NaT", not "N/A". The loop at etl_pipeline_revised.py:77-78 stringifies the datetime columns before the fill at line 80, so the missing Date has already become the text "NaT"; only the other customs columns hold "N/A" (`UnmatchedShippingRow`).
- The shipping adapter raises past its own boundary (shipping_data.py:21-29). A missing latitude or longitude raises KeyError. A non-object `iss_position` raises TypeError. A body that is not a container (a number, a boolean, null) raises TypeError at the `in` test, and a list or string body that holds both key names raises TypeError at the subscript. None of these is caught, and each ends `etl_pipeline` (`ExtractShippingData`, `Integrated`).
- The CSV and SQLite adapters do not check the columns they read. They return whatever the read produced.
- In an example run with one position fix, one customs row and one warehouse row, Amount 500 reaches the integrated row only when the parser reads the epoch timestamp and the customs Date as the same instant. Otherwise the row has "N/A" for Amount and "NaT" for Date (`EndToEndScenario`).
