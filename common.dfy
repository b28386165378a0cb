/// Outcome types shared by every module of the processor: Python's `None` and
/// the pair "value or raised exception".
module Common {

  /** A value that may be absent (Python's `None`). */
  datatype Option<+T> = None | Some(value: T)

  /** What a Python call produces: a value, or the exception it raises. */
  datatype Result<+T, +E> = Ok(value: T) | Err(error: E)
}
