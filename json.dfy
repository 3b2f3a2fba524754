/** An already-parsed JSON document, the input of every decoder (the analogue of
    `serde_json::Value`). Numbers are integers: floating-point numbers are not
    part of this model. `JNull` is also what `std::mem::take` leaves behind in a
    vector of JSON values. */
module JsonValue {

  datatype Json =
    | JNull
    | JBool(b: bool)
    | JNum(n: int)
    | JStr(s: string)
    | JArr(items: seq<Json>)
    | JObj(fields: map<string, Json>)
}
