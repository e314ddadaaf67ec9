/** Option, Result and the JavaScript distinction between `undefined`, `null` and a value. */
module Wrappers {

  /** A value that may be absent; `None` stands for `undefined` or `null` where the source
      treats both alike (`??`, optional chaining). */
  datatype Option<+T> = None | Some(value: T) {
    function GetOr(default: T): T {
      match this
      case Some(v) => v
      case None => default
    }

    /** `a ?? b` for two optional values. */
    function OrElse(other: Option<T>): Option<T> {
      if Some? then this else other
    }
  }

  /** The outcome of an operation that either returns a value or throws. */
  datatype Result<+T, +E> = Ok(value: T) | Err(error: E) {
    predicate IsFailure() {
      Err?
    }
  }

  /** A JavaScript slot that tells `undefined` and `null` apart. */
  datatype Nullish<+T> = Undefined | Null | Value(get: T) {
    /** `v == null` in JavaScript: true for both `undefined` and `null`. */
    predicate IsNullish() {
      !Value?
    }

    function ToOption(): Option<T> {
      if Value? then Some(get) else None
    }
  }

  /** Truthiness of an optional string: absent and the empty string are both falsy. */
  predicate Truthy(s: Option<string>) {
    s.Some? && s.value != ""
  }

  /** A JavaScript value of the kinds a loosely typed row or entity holds: a string, a number
      (`NaN` apart), a boolean, or a `Date` (its epoch milliseconds). */
  datatype Js = JStr(str: string) | JNum(num: int) | JNaN | JBool(flag: bool) | JDate(ms: int) {
    /** JavaScript truthiness: `''`, `0`, `NaN` and `false` are falsy, objects are truthy. */
    predicate IsTruthy() {
      match this
      case JStr(s) => s != ""
      case JNum(n) => n != 0
      case JNaN => false
      case JBool(b) => b
      case JDate(_) => true
    }
  }
}
