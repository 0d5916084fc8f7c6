/** Failure-carrying results used throughout the model.

    The Rust program has two kinds of failure: recoverable errors that are
    returned as `Result::Err`, and panics (`unwrap` on `None`, indexing an
    empty `Vec`).  Both are modelled as values so that every operation stays
    total; a panic is an `Err` carrying the `Panic` that aborts the process.
 */
module Outcomes {

  datatype Option<+T> = None | Some(value: T)

  datatype Result<+T, +E> = Ok(value: T) | Err(error: E) {
    predicate IsFailure() {
      Err?
    }

    function PropagateFailure<U>(): Result<U, E>
      requires Err?
    {
      Err(error)
    }

    function Extract(): T
      requires Ok?
    {
      value
    }
  }

  /** Why the Rust process would abort. */
  datatype Panic =
    | IndexOutOfBounds   // `children[0]` on an empty `Vec`
    | UnwrapNone         // `Option::unwrap` on `None`

  /** `Option::unwrap`: the value, or a panic. */
  function Unwrap<T>(o: Option<T>): Result<T, Panic> {
    match o
    case Some(v) => Ok(v)
    case None => Err(UnwrapNone)
  }
}
