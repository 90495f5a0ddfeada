/**
 * extract_shipping_data: the HTTP source adapter.  The request is outside the
 * model; its outcome is a parameter.  A transport failure, a status other
 * than 200, a body that is not JSON and a body without the two expected
 * top-level keys all give an empty frame.  A body that has both keys is
 * flattened into a one-row frame; the nested keys are not checked, so a
 * missing latitude or longitude raises an exception that no handler catches.
 */
module ShippingData {
  import opened Wrappers
  import Json
  import opened Tables

  const ISS_POSITION := "iss_position"
  const LATITUDE := "latitude"
  const LONGITUDE := "longitude"

  /** The columns of the frame built from a response, in dictionary order. */
  const ShippingColumns := [LATITUDE, LONGITUDE, TIMESTAMP]

  /** A Python exception that leaves extract_shipping_data. */
  datatype PyError =
    | KeyError(key: string)   // subscripting a dict without that key
    | TypeError               // `in` on a value that is not a container, or subscripting a non-dict

  /** What requests.get(api_url) gives back. */
  datatype HttpResult =
    | RequestFailed                                     // a requests.exceptions.RequestException
    | Response(status: int, body: Option<Json.Value>)   // body None: response.json() cannot decode it

  predicate IsSubstring(needle: string, hay: string)
    decreases |hay|
  {
    needle <= hay || (hay != [] && IsSubstring(needle, hay[1..]))
  }

  /** The containers Python's `in` accepts among decoded JSON values. */
  predicate IsContainer(v: Json.Value) {
    v.Object? || v.Array? || v.Str?
  }

  /** `key in v` for a container: a key of a dict, an element of a list, a
      substring of a str. */
  predicate Member(v: Json.Value, key: string)
    requires IsContainer(v)
  {
    match v
    case Object(fields) => key in fields
    case Array(items) => Json.Str(key) in items
    case Str(text) => IsSubstring(key, text)
  }

  /** Python `key in v`: any value but a container raises TypeError. */
  function Contains(v: Json.Value, key: string): (r: Result<bool, PyError>)
    ensures r.Failure? <==> !IsContainer(v)
    ensures r.Failure? ==> r.error == TypeError
    ensures v.Object? ==> r == Success(key in v.fields)
  {
    if IsContainer(v) then Success(Member(v, key)) else Failure(TypeError)
  }

  /** Python `v[key]` with a string key: only a dict can be subscripted so. */
  function Subscript(v: Json.Value, key: string): (r: Result<Json.Value, PyError>)
    ensures r.Success? <==> v.Object? && key in v.fields
    ensures r.Success? ==> r.value == v.fields[key]
    ensures v.Object? && key !in v.fields ==> r == Failure(KeyError(key))
    ensures !v.Object? ==> r == Failure(TypeError)
  {
    match v
    case Object(fields) => if key in fields then Success(fields[key]) else Failure(KeyError(key))
    case _ => Failure(TypeError)
  }

  /** The JSON value a cell was built from, when it was built from one. */
  function JsonOf(c: Cell): Option<Json.Value> {
    match c
    case Null => Some(Json.Null)
    case Str(s) => Some(Json.Str(s))
    case Int(i) => Some(Json.Int(i))
    case Temporal(_) => None
    case Opaque(v) => if v.Null? || v.Str? || v.Int? then None else Some(v)
  }

  /** The cell pandas stores for a decoded JSON value; the value is kept
      unchanged, as JsonOf recovers it. */
  function CellOf(v: Json.Value): (c: Cell)
    ensures JsonOf(c) == Some(v)
    ensures c == Null <==> v.Null?
  {
    match v
    case Null => Null
    case Str(s) => Str(s)
    case Int(i) => Int(i)
    case _ => Opaque(v)
  }

  /** pd.DataFrame({'latitude': [lat], 'longitude': [lon], 'timestamp': [ts]}) */
  function ShippingFrame(lat: Json.Value, lon: Json.Value, ts: Json.Value): (r: Table)
    ensures WellFormed(r) && !IsEmpty(r)
    ensures r.columns == ShippingColumns && |r.rows| == 1
    ensures JsonOf(r.rows[0][LATITUDE]) == Some(lat)
    ensures JsonOf(r.rows[0][LONGITUDE]) == Some(lon)
    ensures JsonOf(r.rows[0][TIMESTAMP]) == Some(ts)
  {
    assert ColumnSet(ShippingColumns) == {LATITUDE, LONGITUDE, TIMESTAMP};
    Table(ShippingColumns, [map[LATITUDE := CellOf(lat), LONGITUDE := CellOf(lon), TIMESTAMP := CellOf(ts)]])
  }

  /** The response the function is written for: status 200, a JSON object
      with iss_position and timestamp, and iss_position an object with
      latitude and longitude. */
  predicate WellShaped(h: HttpResult) {
    && h.Response?
    && h.status == 200
    && h.body.Some?
    && h.body.value.Object?
    && ISS_POSITION in h.body.value.fields
    && TIMESTAMP in h.body.value.fields
    && h.body.value.fields[ISS_POSITION].Object?
    && LATITUDE in h.body.value.fields[ISS_POSITION].fields
    && LONGITUDE in h.body.value.fields[ISS_POSITION].fields
  }

  /** A decoded 200 response whose body is a JSON object. */
  predicate ObjectBody(h: HttpResult) {
    h.Response? && h.status == 200 && h.body.Some? && h.body.value.Object?
  }

  /** extract_shipping_data(api_url): a frame, or the exception it lets escape. */
  function ExtractShippingData(h: HttpResult): (r: Result<Table, PyError>)
    // the frame built from a well-shaped response: one row, three columns, values copied
    ensures WellShaped(h) ==>
      var data, pos := h.body.value.fields, h.body.value.fields[ISS_POSITION].fields;
      && r.Success?
      && r.value.columns == ShippingColumns
      && |r.value.rows| == 1
      && r.value.rows[0].Keys == ColumnSet(ShippingColumns)
      && JsonOf(r.value.rows[0][LATITUDE]) == Some(pos[LATITUDE])
      && JsonOf(r.value.rows[0][LONGITUDE]) == Some(pos[LONGITUDE])
      && JsonOf(r.value.rows[0][TIMESTAMP]) == Some(data[TIMESTAMP])
    // a failed request, another status or a body that is not JSON: empty
    ensures h.RequestFailed? || h.status != 200 || h.body.None? ==> r == Success(Empty)
    // a JSON object without one of the two top-level keys: empty
    ensures ObjectBody(h) && (ISS_POSITION !in h.body.value.fields || TIMESTAMP !in h.body.value.fields) ==>
      r == Success(Empty)
    // only the top-level keys are checked: a nested one that is missing raises KeyError
    ensures ObjectBody(h) && ISS_POSITION in h.body.value.fields && TIMESTAMP in h.body.value.fields ==>
      var pos := h.body.value.fields[ISS_POSITION];
      && (!pos.Object? ==> r == Failure(TypeError))
      && (pos.Object? && LATITUDE !in pos.fields ==> r == Failure(KeyError(LATITUDE)))
      && (pos.Object? && LATITUDE in pos.fields && LONGITUDE !in pos.fields ==> r == Failure(KeyError(LONGITUDE)))
    // `in` on a decoded body that is not a container raises TypeError
    ensures h.Response? && h.status == 200 && h.body.Some? && !IsContainer(h.body.value) ==>
      r == Failure(TypeError)
    // a list or str body passes the `in` tests when it holds both key names,
    // and then raises TypeError at the subscript
    ensures h.Response? && h.status == 200 && h.body.Some? && (h.body.value.Array? || h.body.value.Str?) ==>
      r == (if Member(h.body.value, ISS_POSITION) && Member(h.body.value, TIMESTAMP)
            then Failure(TypeError) else Success(Empty))
    // whatever it returns is the empty frame or the one-row frame, and it
    // raises only once a 200 response has been decoded
    ensures r.Success? ==> r.value == Empty || (r.value.columns == ShippingColumns && |r.value.rows| == 1)
    ensures r.Success? ==> WellFormed(r.value)
    ensures r.Failure? ==> h.Response? && h.status == 200 && h.body.Some?
    ensures r.Success? && !IsEmpty(r.value) <==> WellShaped(h)
  {
    match h
    case RequestFailed => Success(Empty)
    case Response(status, body) =>
      if status != 200 || body.None? then Success(Empty)
      else
        var data := body.value;
        var hasPosition :- Contains(data, ISS_POSITION);
        // `and` evaluates its right side only on a container that has iss_position
        if !(hasPosition && Member(data, TIMESTAMP)) then Success(Empty)
        else
          var position :- Subscript(data, ISS_POSITION);
          var lat :- Subscript(position, LATITUDE);
          var lon :- Subscript(position, LONGITUDE);
          Success(ShippingFrame(lat, lon, data.fields[TIMESTAMP]))
  }
}
