/** Error values and the failure-compatible result type the model uses where the
    Go code returns an `error` (and, via `utils.ErrorHandler`, panics on it). */
module Results {

  /** The kinds of `error` the core can meet. */
  datatype Error =
    | NotFound(key: string)       // a setting lookup found no record
    | SyntaxError(input: string)  // text that is not a number or not a timestamp
    | RangeError(input: string)   // well-formed text whose value is out of range

  datatype Result<+T> = Ok(value: T) | Err(error: Error) {
    predicate IsFailure() { Err? }

    function PropagateFailure<U>(): Result<U>
      requires Err?
    {
      Err(error)
    }

    function Extract(): T
      requires Ok?
    {
      value
    }
  }

  datatype Option<+T> = None | Some(value: T)
}
