/** A JSON document as the HTTP client decodes a response body. */
module Json {

  datatype Value =
    | Null
    | Bool(b: bool)
    | Int(i: int)
    | Real(text: string)   // a number with a fraction or exponent, kept as its text
    | Str(s: string)
    | Array(items: seq<Value>)
    | Object(fields: map<string, Value>)
}
