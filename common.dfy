/** Missing values and success/failure results shared by the whole model. */
module Common {

  /** A cell that may be missing (NaN / NaT in the data frame). */
  datatype Option<+T> = None | Some(value: T)

  /** The outcome of an operation that the Python code lets raise an exception. */
  datatype Result<+T, +E> = Ok(value: T) | Err(error: E)
}
