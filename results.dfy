/** Outcomes of the operations: a value, or the Python exception the
    original code raises instead of returning. */
module Results {

  datatype Option<+T> = None | Some(value: T)

  /** The built-in exceptions the modelled code can raise. */
  datatype PyError =
    | IndexError                  // a list or string index out of range
    | KeyError(key: string)       // a dictionary lookup of a missing key
    | ValueError                  // int() of text that is not an integer
    | ZeroDivisionError           // a division by zero

  datatype Result<+T> = Ok(value: T) | Err(error: PyError)
}
