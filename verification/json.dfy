/** A decoded JSON document, as a picojson::value holds one. */
module Json {
  /** Numbers are kept as integers: no modelled code reads a JSON number. */
  datatype Value =
    | Null
    | Boolean(b: bool)
    | Number(n: int)
    | Str(s: string)
    | Array(items: seq<Value>)
    | Object(properties: map<string, Value>)
}
