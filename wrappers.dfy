/** Option and Result, the two shapes the converter's Rust code returns. */
module Wrappers {

  datatype Option<+T> = None | Some(value: T)

  /** `anyhow::Result`: Ok carries the value, Err the reason. Supports `:-`. */
  datatype Result<+T, +E> = Ok(value: T) | Err(error: E) {

    predicate IsFailure() {
      Err?
    }

    function PropagateFailure<U>(): Result<U, E>
      requires Err?
    {
      Err(error)
    }

    function Extract(): T
      requires Ok?
    {
      value
    }
  }
}
