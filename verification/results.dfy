/** Outcomes of the script's operations: a value, or the exception the Python 2
    runtime raises instead. */
module Results {

  /** The exceptions the modelled code can raise. */
  datatype PyError =
    | KeyError          // `table[code]` for a string the LZW table does not hold
    | ValueError        // `chr(n)` for n outside 0..255
    | ZeroDivisionError // `%` or `/` by a zero pixel pitch
    | StructError       // `struct.pack` of a value outside its field's range

  /** A failure-compatible result, usable with `:-`. */
  datatype Result<+T> = Success(value: T) | Failure(error: PyError) {

    predicate IsFailure() {
      Failure?
    }

    function PropagateFailure<U>(): Result<U>
      requires Failure?
    {
      Failure(error)
    }

    function Extract(): T
      requires Success?
    {
      value
    }
  }

  datatype Option<+T> = None | Some(value: T)
}
