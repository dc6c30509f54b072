/** Decoded JSON values and Python's truthiness on them. */
module Json {

  /** What `json.loads` produces: None, bool, int, float, str, list or dict. */
  datatype Json =
    | JNull
    | JBool(b: bool)
    | JInt(i: int)
    | JFloat(f: real)
    | JString(s: string)
    | JArray(items: seq<Json>)
    | JObject(members: map<string, Json>)

  /** Python's `bool(v)`: None, False, zero and empty containers are false. */
  predicate Truthy(v: Json) {
    match v
    case JNull => false
    case JBool(b) => b
    case JInt(i) => i != 0
    case JFloat(f) => f != 0.0
    case JString(s) => s != []
    case JArray(items) => items != []
    case JObject(members) => members != map[]
  }
}
