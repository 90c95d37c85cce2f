/** Shared wrapper types: nullable values and Python-style raised errors. */
module Common {

  /** A nullable column value (a pandas NaN/None becomes `None`). */
  datatype Option<+T> = None | Some(value: T)

  /** The Python exceptions the modelled code can raise. */
  datatype PyError = IndexError | ValueError | KeyError | ZeroDivisionError

  /** The outcome of a Python computation: a value, or a raised exception. */
  datatype Result<+T> = Ok(value: T) | Raised(error: PyError)

  function Max(a: int, b: int): int
  {
    if a < b then b else a
  }
}
