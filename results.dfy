/** Outcomes of the modelled Python calls: a value, or the exception the call raises. */
module Results {

  datatype Option<+T> = None | Some(value: T)

  /** The built-in Python exceptions that the modelled code can raise. */
  datatype PyError = ValueError | TypeError | IndexError | KeyError | AttributeError

  datatype Result<+T> = Ok(value: T) | Err(error: PyError) {

    predicate IsFailure() {
      Err?
    }

    function PropagateFailure<U>(): Result<U>
      requires Err?
    {
      Err(error)
    }

    function Extract(): T
      requires Ok?
    {
      value
    }
  }
}
