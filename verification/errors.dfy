/** The codec's error taxonomy and the result type every fallible operation returns.
    `Result` is failure-compatible, so `:-` propagates an error the way Rust's `?` does. */
module Errors {

  /** The two error kinds; the descriptive messages the source attaches are not modelled. */
  datatype CompressionError =
    | InvalidInput         // the caller's IDs violate a precondition of compression
    | DecompressionFailed  // the bytes are not a valid payload for the given universe

  datatype Result<+T> = Ok(value: T) | Err(error: CompressionError) {

    predicate IsFailure() {
      Err?
    }

    function PropagateFailure<U>(): Result<U>
      requires Err?
    {
      Err(error)
    }

    function Extract(): T
      requires Ok?
    {
      value
    }
  }
}
