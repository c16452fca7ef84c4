/** Option, Result and the exception classes the Python backend raises. */
module Wrappers {

  datatype Option<+T> = None | Some(value: T)

  /** The exception classes raised by the modelled code. `ChromaInputError` is the
      backend's own subclass of `ValueError`; the model keeps the two apart so that a
      contract can say which one is raised. `IndexError` is an out-of-range row. */
  datatype Error = ChromaInputError | ValueError | KeyError | IndexError

  datatype Result<+T> = Ok(value: T) | Err(error: Error)
}
