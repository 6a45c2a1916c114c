/** Failure values of the tracker.

    The tracker raises one exception class for its own errors and lets a few
    built-in exceptions escape; each kind is a constructor here so that the
    model can say which one an operation ends with. */
module Errors {

  datatype Error =
    /** "Invalid version format: ... Please use the format X.Y.Z or X.Y." */
    | InvalidVersionFormat(input: string)
    /** "Invalid version format for (...)": a tuple of the wrong arity. */
    | InvalidTupleLength(input: string)
    /** "The provided version (...) cannot be interpreted as a valid version": an int() failure. */
    | NotInterpretable(input: string)
    /** UnboundLocalError: validation returned a local that was never assigned. */
    | UnboundVersion(input: string)
    /** "The specified version is outside the accepted range of Python versions." */
    | OutOfRange
    /** IndexError: indexing past the end of a list (`[1]`, `[-1]`, `pop()`). */
    | IndexOutOfRange
    /** ValueError: min() of an empty sequence. */
    | EmptySequence
    /** ValueError: list.index() of an absent value. */
    | ValueNotInList
    /** StopIteration: next() over a generator that yields nothing. */
    | NoMatchingRecord
    /** TypeError: iterating the None that find() returns for a missing element. */
    | MissingElement
    /** TypeError: str.join() given integers. */
    | JoinTypeError
    /** "... requires Python X or a more recent version ...". */
    | UnsupportedRuntime(current: string, minimum: string)

  datatype Option<+T> = None | Some(value: T)

  /** The outcome of an operation that may raise. */
  datatype Result<+T> = Ok(value: T) | Err(error: Error) {
    predicate IsFailure() { Err? }

    function PropagateFailure<U>(): Result<U>
      requires Err?
    {
      Err(error)
    }

    function Extract(): T
      requires Ok?
    {
      value
    }
  }
}
