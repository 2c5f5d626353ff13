/** Failure-compatible result type used for every operation that can raise in
    the pipeline, and an optional value. An error carries the human-readable
    message that the pipeline's `str(e)` would produce. */
module Wrappers {

  datatype Option<+T> = None | Some(value: T)

  datatype Result<+T> = Ok(value: T) | Err(msg: string) {

    predicate IsFailure() {
      Err?
    }

    function PropagateFailure<U>(): Result<U>
      requires Err?
    {
      Err(msg)
    }

    function Extract(): T
      requires Ok?
    {
      value
    }
  }
}
