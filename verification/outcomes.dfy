/**
 * Java's `null` and the two exceptions the tree can raise, as values.
 * `Result` is failure-compatible, so `:-` propagates an exception the way
 * Java unwinds the call stack.
 */
module Outcomes {

  /** A reference that may be `null`. */
  datatype Option<T> = None | Some(value: T)

  /** The exceptions the tree's code can throw. */
  datatype Exception =
    | NullPointer      // dereferencing an absent child
    | IllegalArgument  // `select` with a rank outside [0, size())

  datatype Result<T> = Ok(value: T) | Err(error: Exception) {

    predicate IsFailure() {
      Err?
    }

    function PropagateFailure<U>(): Result<U>
      requires Err?
    {
      Err(error)
    }

    function Extract(): T
      requires Ok?
    {
      value
    }
  }
}
