/** Failure-compatible result types shared by the parser and the JSON codec. */
module Results {

  datatype Option<+T> = None | Some(value: T)

  /** `Result<T, String>` of the source: a value, or an error message and nothing else. */
  datatype Result<+T> = Ok(value: T) | Err(msg: string) {

    predicate IsFailure() {
      Err?
    }

    function PropagateFailure<U>(): Result<U>
      requires Err?
    {
      Err(msg)
    }

    function Extract(): T
      requires Ok?
    {
      value
    }
  }
}
