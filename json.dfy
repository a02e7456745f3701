/** Parsed JSON values, as `json.load` hands them to the aggregator. Only
    their shape matters here: number literals are kept as their text. */
module Json {

  datatype Value =
    | Null
    | Bool(b: bool)
    | Number(literal: string)
    | Str(s: string)
    | Array(items: seq<Value>)
    | Object(fields: map<string, Value>)

  /** A JSON object at the top level of a file: one validator's metadata. */
  type Record = map<string, Value>
}
