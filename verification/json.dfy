/**
 * Parsed JSON values, as `json.loads` produces them: the secret record is a JSON
 * object and its fields are copied into the response without being interpreted.
 */
module JsonValues {
  datatype Json =
    | JNull
    | JBool(b: bool)
    | JNum(n: int)
    | JStr(s: string)
    | JArr(items: seq<Json>)
    | JObj(fields: map<string, Json>)
}
