/**
 * The failure channel shared by every container: the library signals misuse
 * by throwing `runtime_error` with a fixed message, which the model returns
 * as `Err(message)`.
 */
module Outcome {

  datatype Result<+T> = Ok(value: T) | Err(msg: string)
  {
    predicate IsFailure() {
      Err?
    }

    function PropagateFailure<U>(): Result<U>
      requires Err?
    {
      Err(msg)
    }

    function Extract(): T
      requires Ok?
    {
      value
    }
  }

  /** The value of operations that return `void` in the library. */
  datatype Unit = Unit
}
