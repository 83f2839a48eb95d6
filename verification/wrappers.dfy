/** Option and Result, and the errors ActiveHash raises. */
module Wrappers {

  datatype Option<+T> = None | Some(value: T) {
    function GetOr(default: T): T {
      match this
      case Some(v) => v
      case None => default
    }
  }

  datatype Result<+T, +E> = Ok(value: T) | Err(error: E)
}

module Errors {
  import opened Wrappers

  /** The exceptions the modelled code raises. ArgumentError is Ruby's
      "comparison of X with Y failed", raised by `max` inside `next_id`
      when two ids cannot be compared; NoMethodError is `super` in
      `method_missing`. */
  datatype Error =
    | IdError
    | ReservedFieldError
    | RecordNotFound
    | ArgumentError
    | NoMethodError

  /** The state an operation leaves behind, and the exception it raised, if
      any. Ruby exceptions do not roll back work already done, so a raised
      step still carries the state reached before the raise. */
  datatype Step<T> = Step(value: T, raised: Option<Error>)
}
