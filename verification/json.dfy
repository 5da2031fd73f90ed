/** Parsed JSON values, as Python's `json.loads` hands them to the program. */
module Json {

  /** A JSON document. Numbers are kept as exact reals; objects are maps, so a
      key occurs at most once (the parser keeps the last duplicate). */
  datatype JsonValue =
    | JNull
    | JBool(b: bool)
    | JNum(n: real)
    | JStr(s: string)
    | JArr(items: seq<JsonValue>)
    | JObj(fields: map<string, JsonValue>)

  /** Python truthiness of a decoded JSON value: `None`, `False`, zero, the
      empty string, the empty list and the empty dict are false. */
  function Truthy(v: JsonValue): (t: bool)
    ensures t <==> v !in {JNull, JBool(false), JNum(0.0), JStr(""), JArr([]), JObj(map[])}
  {
    match v
    case JNull => false
    case JBool(b) => b
    case JNum(n) => n != 0.0
    case JStr(s) => s != ""
    case JArr(items) => items != []
    case JObj(fields) => fields != map[]
  }
}
