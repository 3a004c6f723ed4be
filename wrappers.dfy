/** Failure-carrying values shared by every module of the model. */
module Wrappers {

  datatype Option<+T> = None | Some(value: T)

  /** The Python exceptions the modelled scripts can raise. */
  datatype Error =
    | ValueError          // an unset required setting, a zero range step, ragged columns
    | TypeError           // int(None)
    | KeyError            // a missing configuration key
    | ZeroDivisionError   // the suppressed-row percentage over zero remaining rows
    | UnicodeDecodeError  // a byte piece that is not valid UTF-8
    | ReadFailed          // the CSV reader raised
    | ListDirFailed       // os.listdir raised (a missing or unreadable directory)
    | LoadFailed          // np.load raised (a missing or malformed archive)
    | WriteFailed         // the database refused a to_sql call

  datatype Result<+T> = Ok(value: T) | Err(error: Error)

  /** The outcome of an operation that returns nothing or raises. */
  datatype Outcome = Pass | Fail(error: Error)
}
