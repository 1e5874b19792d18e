/** Outcomes of the Python operations the extractor uses: a value, or the exception
    that Python raises instead of returning one. */
module Results {

  /** The exceptions the extraction code can raise. */
  datatype Error =
    | IndexError  // a list index past the end: `rows[0]`, `s.split(sep)[1]`
    | ValueError  // `float(...)` or `int(...)` of a malformed string, `split('')`

  datatype Option<+T> = None | Some(value: T)

  /** A value, or the exception raised while computing it.  Failure-compatible,
      so `:-` propagates the exception as Python does. */
  datatype Result<+T> = Ok(value: T) | Err(error: Error) {

    predicate IsFailure() {
      Err?
    }

    function PropagateFailure<U>(): Result<U>
      requires Err?
    {
      Err(error)
    }

    function Extract(): T
      requires Ok?
    {
      value
    }
  }
}
