/** JSON values as they travel between the services and the dashboard
    (what `json.dumps` writes and `response.json()` reads back). Python's int
    and float both become `JNum`. */
module JsonValue {

  datatype Json =
    | JNull
    | JBool(b: bool)
    | JNum(n: real)
    | JStr(s: string)
    | JArr(items: seq<Json>)
    | JObj(fields: map<string, Json>)
}
