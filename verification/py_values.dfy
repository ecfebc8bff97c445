/**
 The Python values the refresh logic inspects: an optional value, decoded JSON
 (the body of a weather response), and the truthiness and `isinstance(x, (int,
 float))` tests applied to them.
 */
module PyValues {

  datatype Option<+T> = None | Some(value: T)

  /** The result of a Python call: it returns a value or raises. */
  datatype Outcome<+T> = Returns(value: T) | Raises(message: string)

  /**
   A decoded JSON document. JSON integers and floats are both `JNumber`, held
   exactly as reals.
   */
  datatype Json =
    | JNull
    | JBool(b: bool)
    | JNumber(n: real)
    | JString(s: string)
    | JArray(items: seq<Json>)
    | JObject(fields: map<string, Json>)

  /** Python's truth value of the decoded document (`None`, `False`, `0`, empty containers are false). */
  predicate Truthy(j: Json)
  {
    match j
    case JNull => false
    case JBool(b) => b
    case JNumber(n) => n != 0.0
    case JString(s) => |s| > 0
    case JArray(items) => |items| > 0
    case JObject(fields) => |fields| > 0
  }

  /**
   The number `isinstance(j, (int, float))` accepts. `bool` is a subclass of
   `int` in Python, so `true` and `false` count as 1 and 0.
   */
  function NumericValue(j: Json): Option<real>
  {
    match j
    case JNumber(n) => Some(n)
    case JBool(b) => Some(if b then 1.0 else 0.0)
    case _ => None
  }
}
