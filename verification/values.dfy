/** JavaScript values as the memoizer sees them: primitives compared by value,
    objects and functions compared by identity (their `id`). */
module JsValues {

  /** A JavaScript value. Numbers are modelled as mathematical integers; objects,
      functions and symbols carry an identity, so two distinct objects of the same
      shape are different values. */
  datatype Value =
    | Undefined
    | Null
    | Boolean(b: bool)
    | Number(n: int)
    | BigInt(i: int)
    | String(s: string)
    | Symbol(sid: nat)
    | Object(oid: nat)
    | Function(fid: nat)

  /** The result of the `typeof` operator; note that `typeof null` is "object". */
  function TypeOf(v: Value): string
  {
    match v
    case Undefined => "undefined"
    case Null => "object"
    case Boolean(_) => "boolean"
    case Number(_) => "number"
    case BigInt(_) => "bigint"
    case String(_) => "string"
    case Symbol(_) => "symbol"
    case Object(_) => "object"
    case Function(_) => "function"
  }

  /** The classification used on every argument, both when calling and when
      clearing: `null`, or anything whose type is neither "object" nor
      "function", goes to the value-keyed tables. */
  predicate IsPrimitive(v: Value)
    ensures IsPrimitive(v) <==> !(v.Object? || v.Function?)
  {
    v == Null || (TypeOf(v) != "object" && TypeOf(v) != "function")
  }
}
