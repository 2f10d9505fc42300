/** Small value types shared by every module of the model. */
module Common {

  /** A value that may be absent: a missing JavaScript argument, a missing row. */
  datatype Option<+T> = None | Some(value: T)

  /** The outcome of a store operation that may throw: the thrown error or the value. */
  datatype Result<+T, +E> = Ok(value: T) | Err(error: E)

  /**
   * JavaScript truthiness of an optional string: `undefined` and `""` are falsy,
   * every other string is truthy.
   */
  predicate Truthy(s: Option<string>)
  {
    s.Some? && s.value != ""
  }

  /** JavaScript truthiness of an optional number: `undefined` and `0` are falsy. */
  predicate TruthyNumber(n: Option<int>)
  {
    n.Some? && n.value != 0
  }

  /** `a || b` for an optional string with a string default. */
  function OrString(s: Option<string>, default: string): string
  {
    if Truthy(s) then s.value else default
  }

  /** `a || b` for an optional number with a number default. */
  function OrNumber(n: Option<int>, default: int): int
  {
    if TruthyNumber(n) then n.value else default
  }
}
