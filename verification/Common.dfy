/** Result carriers shared by every module of the model. */
module Common {

  /** A value that may be absent: Python's `None` versus a value. */
  datatype Option<+T> = None | Some(value: T)

  /** The outcome of an operation that the program ends with an exception
      (or `sys.exit`) on some inputs. */
  datatype Result<+T, +E> = Ok(value: T) | Err(error: E)
}
