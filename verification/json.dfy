/** JSON values as both runtimes see them, with each runtime's notion of
    truthiness, and JavaScript numbers (which, unlike JSON, include NaN). */
module JsonValue {
  import opened Wrappers

  datatype Json =
    | JNull
    | JBool(b: bool)
    | JNum(n: real)
    | JStr(s: string)
    | JArr(items: seq<Json>)
    | JObj(fields: map<string, Json>)

  /** The `properties` object of a GeoJSON feature. */
  type Properties = map<string, Json>

  /** JavaScript `obj[key]`: `None` stands for `undefined`. */
  function Lookup(p: Properties, key: string): Option<Json> {
    if key in p then Some(p[key]) else None
  }

  /** Python `d.get(key, default)`. */
  function Get(p: Properties, key: string, default: Json): Json {
    if key in p then p[key] else default
  }

  /** JavaScript truthiness; `undefined` is falsy, arrays and objects are
      always truthy. */
  predicate JsTruthy(v: Option<Json>) {
    match v
    case None => false
    case Some(JNull) => false
    case Some(JBool(b)) => b
    case Some(JNum(n)) => n != 0.0
    case Some(JStr(s)) => s != ""
    case Some(_) => true
  }

  /** Python truthiness; empty lists and dicts are falsy. */
  predicate PyTruthy(v: Json) {
    match v
    case JNull => false
    case JBool(b) => b
    case JNum(n) => n != 0.0
    case JStr(s) => s != ""
    case JArr(items) => |items| > 0
    case JObj(fields) => |fields| > 0
  }

  /** A JavaScript number: a real value or NaN. */
  datatype Num = Finite(value: real) | NaN
}
