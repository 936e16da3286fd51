/**
 * The dynamically typed values the JavaScript half of the system passes
 * around (parsed JSON payloads, constructor arguments, DTO fields), with
 * JavaScript's truthiness, `||` defaulting and property access.
 */
module JsValues {

  datatype Value =
    | Undefined
    | Null
    | Bool(b: bool)
    | Num(x: real)
    | NaN
    | Str(s: string)
    | Obj(fields: map<string, Value>)

  /** `!!v` */
  predicate Truthy(v: Value) {
    match v
    case Undefined => false
    case Null => false
    case Bool(b) => b
    case Num(x) => x != 0.0
    case NaN => false
    case Str(s) => s != []
    case Obj(_) => true
  }

  /** `a || b`: the left operand when it is truthy, otherwise the right one. */
  function Or(a: Value, b: Value): (r: Value)
    ensures Truthy(r) <==> Truthy(a) || Truthy(b)
    ensures r == a || r == b
  {
    if Truthy(a) then a else b
  }

  /** `a && b`: the left operand when it is falsy, otherwise the right one. */
  function And(a: Value, b: Value): (r: Value)
    ensures Truthy(r) <==> Truthy(a) && Truthy(b)
    ensures r == a || r == b
  {
    if Truthy(a) then b else a
  }

  /**
   * `v?.[key]`: a property of an object, `undefined` when the object lacks it
   * or when `v` is not an object (inherited properties and properties of
   * primitives are not modelled).
   */
  function Get(v: Value, key: string): Value {
    if v.Obj? && key in v.fields then v.fields[key] else Undefined
  }

  /** `Object.keys(v).length` for a truthy `v`: an object's own keys, a string's indices. */
  function KeyCount(v: Value): nat {
    match v
    case Obj(fields) => |fields|
    case Str(s) => |s|
    case _ => 0
  }
}
