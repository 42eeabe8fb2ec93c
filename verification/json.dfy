/**
 * JSON values as the schema validators receive them. Numbers are integers here (no schema
 * of this model accepts a number), and an object is a map from key to value.
 */
module Json {
  datatype Json =
    | JNull
    | JBool(b: bool)
    | JNum(n: int)
    | JStr(s: string)
    | JArr(items: seq<Json>)
    | JObj(fields: map<string, Json>)
}
