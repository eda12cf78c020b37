/** Failure-carrying values shared by the pipeline: Python's `None` and the
    exceptions the services raise. */
module Wrappers {

  datatype Option<+T> = None | Some(value: T)

  /** The exceptions raised by the analysis services. */
  datatype Error =
    | KeyError(missing: seq<string>)   // required DataFrame columns that are absent
    | ValueError(message: string)      // e.g. a traffic frame without any `_bits` column

  datatype Result<+T> = Success(value: T) | Failure(error: Error)
}
