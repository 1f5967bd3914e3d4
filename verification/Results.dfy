/** The outcomes of the wire code: a value, or the exception the source raises. */
module Results {

  /** The two wire exceptions, and the argument check on a wrong-sized MAC. */
  datatype WireError = Encoding | Decoding | IllegalArgument

  datatype Result<+T> = Ok(value: T) | Err(error: WireError) {

    predicate IsFailure() {
      Err?
    }

    function PropagateFailure<U>(): (r: Result<U>)
      requires Err?
    {
      Err(error)
    }

    function Extract(): T
      requires Ok?
    {
      value
    }
  }

  datatype Option<+T> = None | Some(value: T)
}
