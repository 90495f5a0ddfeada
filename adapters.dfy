/**
 * extract_customs_data and extract_warehouse_data: the CSV and SQLite source
 * adapters.  The read itself (pd.read_csv, sqlite3.connect plus
 * pd.read_sql_query) is outside the model; what it gives back is a parameter,
 * and the adapter turns every fault it catches into an empty frame.
 */
module Adapters {
  import opened Tables

  /** What pd.read_csv(csv_path) does. */
  datatype CsvRead =
    | CsvOk(table: Table)
    | FileNotFound     // FileNotFoundError
    | EmptyData        // pandas.errors.EmptyDataError
    | CsvFault         // any other exception

  /** What connecting and running SELECT * FROM warehouse_data does. */
  datatype SqlRead =
    | SqlOk(table: Table)
    | SqliteError      // sqlite3.Error
    | SqlFault         // any other exception, such as pandas' DatabaseError

  /** extract_customs_data(csv_path) */
  function ExtractCustomsData(read: CsvRead): (t: Table)
    ensures read.CsvOk? ==> t == read.table
    ensures !read.CsvOk? ==> t == Empty
    ensures IsEmpty(t) <==> !read.CsvOk? || IsEmpty(read.table)
  {
    match read
    case CsvOk(table) => table
    case FileNotFound => Empty
    case EmptyData => Empty
    case CsvFault => Empty
  }

  /** extract_warehouse_data(db_path) */
  function ExtractWarehouseData(read: SqlRead): (t: Table)
    ensures read.SqlOk? ==> t == read.table
    ensures !read.SqlOk? ==> t == Empty
    ensures IsEmpty(t) <==> !read.SqlOk? || IsEmpty(read.table)
  {
    match read
    case SqlOk(table) => table
    case SqliteError => Empty
    case SqlFault => Empty
  }
}
