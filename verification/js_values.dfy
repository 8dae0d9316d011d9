/** Values as the route handlers receive them from a parsed JSON body or a query string,
    and the two JavaScript idioms the handlers apply to them. */
module JsValues {

  /** A decoded JSON scalar. JavaScript numbers are modelled as integers. */
  datatype JsValue = Undefined | Null | Bool(b: bool) | Num(n: int) | Str(s: string)

  /** JavaScript truthiness: `!v` holds exactly when this predicate is false. */
  predicate Truthy(v: JsValue) {
    match v
    case Undefined => false
    case Null => false
    case Bool(b) => b
    case Num(n) => n != 0
    case Str(s) => s != ""
  }

  /** The `v || fallback` idiom used for optional fields. */
  function OrElse(v: JsValue, fallback: JsValue): JsValue {
    if Truthy(v) then v else fallback
  }

  /** The value the MongoDB driver writes for a field: `undefined` is serialised as `null`. */
  function Stored(v: JsValue): JsValue {
    if v.Undefined? then Null else v
  }
}
