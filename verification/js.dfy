/**
 * The JavaScript values the client handles: JSON data from the backend and
 * the form state, with the truthiness that `||` and `&&` test.
 */
module Js {

  /** A JSON-like JavaScript value; `Undefined` stands for a missing property. */
  datatype JsValue = Undefined | Null | Bool(b: bool) | Num(x: real) | Str(s: string) | Arr(items: seq<JsValue>)

  /** A plain object such as a parsed note: property name to value. */
  type JsObject = map<string, JsValue>

  /** `o[k]`: the property, or `undefined` when the object lacks it. */
  function Get(o: JsObject, k: string): JsValue {
    if k in o then o[k] else Undefined
  }

  /** What `if (v)` tests: everything but `undefined`, `null`, `false`, `0` and `''` is truthy. */
  predicate Truthy(v: JsValue) {
    match v
    case Undefined => false
    case Null => false
    case Bool(b) => b
    case Num(x) => x != 0.0
    case Str(s) => s != []
    case Arr(_) => true
  }

  /** `a || b`: `a` when it is truthy, otherwise `b`. */
  function Or(a: JsValue, b: JsValue): JsValue {
    if Truthy(a) then a else b
  }
}
