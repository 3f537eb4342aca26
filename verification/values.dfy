/** Parsed JSON values as they arrive in a request body, and JavaScript's
    notion of truthiness on them (what `if (!x)` tests). */
module Values {
  import opened Wrappers

  /** A JSON value after `JSON.parse`. A number is the double the parser
      produced, written as a real: a literal too small for a double (such as
      `1e-400`) has already become `0.0`, and `-0` is `0.0` too, both falsy
      as in JavaScript. A literal too large for a double (such as `1e400`)
      has become an infinity, which no real can hold, so it has its own
      case. The parser never produces NaN. */
  datatype Value =
    | Null
    | Bool(b: bool)
    | Num(n: real)
    | Infinity(negative: bool)
    | Str(s: string)
    | Arr(items: seq<Value>)
    | Obj(fields: seq<(string, Value)>)

  /** JavaScript truthiness of a JSON value: `null`, `false`, `0` and `""`
      are falsy, every array and object (even an empty one) is truthy. */
  predicate Truthy(v: Value) {
    match v
    case Null => false
    case Bool(b) => b
    case Num(n) => n != 0.0
    case Infinity(_) => true
    case Str(s) => s != ""
    case Arr(_) => true
    case Obj(_) => true
  }

  /** Truthiness of a body field that may be absent (`undefined` is falsy). */
  predicate Present(field: Option<Value>) {
    field.Some? && Truthy(field.value)
  }
}
