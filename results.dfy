/** Python's `None` and Python exceptions, as values. */
module Results {

  /** A value that may be Python's `None`. */
  datatype Option<+T> = None | Some(value: T)

  /** The exceptions the tracker's code can raise or catch. */
  datatype Exc =
    | NoSuchElement   // selenium's NoSuchElementException: a page lookup failed
    | IndexError      // a list index past the end, e.g. `split(cur)[1]`
    | ValueError      // `float()` of a non-numeric string, or an empty split separator
    | AttributeError  // an attribute the object does not have
    | TypeError       // an operation on a value of the wrong type, e.g. `sorted(None)`

  /** The outcome of a Python call: a returned value or a raised exception. */
  datatype Try<+T> = Ok(value: T) | Raise(exc: Exc) {

    predicate IsFailure()
    {
      Raise?
    }

    function PropagateFailure<U>(): Try<U>
      requires Raise?
    {
      Raise(exc)
    }

    function Extract(): T
      requires Ok?
    {
      value
    }
  }
}
