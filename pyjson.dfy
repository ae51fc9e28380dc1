/**
 * The values `json.loads` produces, and the two Python operations the code
 * applies to them: integer indexing (`v[k]`, which raises for most values)
 * and comparison with a number. How text is parsed into a value is not
 * modelled: `json.loads` is an abstract parser `string -> Option<Json>`,
 * where `None` stands for the exception it raises.
 */
module PyJson {
  import opened Maybe

  /** A decoded JSON document (integers and floats are both `JNum`). */
  datatype Json =
    | JNull
    | JBool(b: bool)
    | JNum(n: real)
    | JStr(s: string)
    | JArr(items: seq<Json>)
    | JObj(fields: map<string, Json>)

  /** The abstract `json.loads`: `None` when it raises. */
  type Parser = string -> Option<Json>

  /**
   * Python's `v[k]` for an integer `k`: lists and strings accept
   * `-len <= k < len` (negative `k` counts from the end), indexing a string
   * yields a one-character string, and everything else raises (`None`).
   */
  function Index(v: Json, k: int): (r: Option<Json>)
    ensures r.Some? <==> ((v.JArr? && -|v.items| <= k < |v.items|) || (v.JStr? && -|v.s| <= k < |v.s|))
    ensures r.Some? && v.JArr? ==> r.value == v.items[if k < 0 then k + |v.items| else k]
    ensures r.Some? && v.JStr? ==> r.value == JStr([v.s[if k < 0 then k + |v.s| else k]])
  {
    match v
    case JArr(items) =>
      if -|items| <= k < |items| then Some(items[if k < 0 then k + |items| else k]) else None
    case JStr(s) =>
      if -|s| <= k < |s| then Some(JStr([s[if k < 0 then k + |s| else k]])) else None
    case _ => None
  }

  /**
   * Python's `v == x` for a number `x`: a JSON number compares by value, a
   * JSON boolean as 0 or 1 (Python's `True == 1`), anything else is unequal.
   */
  predicate EqNum(v: Json, x: real)
  {
    match v
    case JNum(n) => n == x
    case JBool(b) => (if b then 1.0 else 0.0) == x
    case _ => false
  }
}
