/**
  The JavaScript values the other modules share: an optional value
  (`undefined` or a value) and the truthiness test that `if (x)` and `!!x`
  apply to an optional string.
 */
module JsValues {

  datatype Option<T> = None | Some(value: T)

  /**
    JavaScript truthiness of an optional string: `undefined` and the empty
    string are falsy, every other string is truthy.
   */
  predicate IsTruthy(o: Option<string>)
  {
    o.Some? && o.value != ""
  }
}
