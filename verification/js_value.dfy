/** JavaScript values as the catalog's handlers and pages see them: the
    properties of a decoded JSON request body, the columns of a product row
    read back from the table, and the fields of a fetched product.

    Only the shapes the code distinguishes are kept. `Undefined` is a
    property that is absent from an object; numbers are exact reals (no NaN,
    no infinities, no rounding). */
module JsValue {

  datatype Option<+T> = None | Some(value: T)

  datatype Value = Undefined | Null | Str(s: string) | Num(n: real)

  /** JavaScript's ToBoolean on these values: `undefined`, `null`, `''` and
      `0` are falsy, everything else is truthy. */
  predicate Truthy(v: Value) {
    match v
    case Undefined => false
    case Null => false
    case Str(s) => s != ""
    case Num(n) => n != 0.0
  }

  /** The expression `a || b`: the left operand itself when it is truthy,
      otherwise the right operand. */
  function Or(a: Value, b: Value): Value {
    if Truthy(a) then a else b
  }

  /** What a template literal `${v}` inserts for `v`. Turning a number into
      its decimal text (Number.prototype.toString) is IEEE-754 formatting and
      is supplied by the caller as `numText`. */
  function TemplateText(v: Value, numText: real -> string): string {
    match v
    case Undefined => "undefined"
    case Null => "null"
    case Str(s) => s
    case Num(n) => numText(n)
  }

  /** How a JavaScript expression completes: with a value, or by throwing a
      TypeError (calling a string method on a number, reading a property of
      `null`). */
  datatype Completion<+T> = Normal(value: T) | TypeError
}
