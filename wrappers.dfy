/** Absent values and failures, shared by every module of the model. */
module Wrappers {

  /** A Java reference that may be null. */
  datatype Option<+T> = None | Some(value: T)

  /** The Java exceptions the modelled code can raise. */
  datatype JavaException =
    | NullPointerException
    | ArrayIndexOutOfBoundsException
    | DateTimeException
    | SqlException
    | SecurityException
    | IllegalArgumentException

  /** Either a value or the exception that was thrown instead. */
  datatype Result<+T> = Ok(value: T) | Err(error: JavaException)
}
