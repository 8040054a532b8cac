/** Option and Result, the two failure-carrying datatypes the model uses.
    Every exception the pipeline can raise is reduced to its message text
    (what `str(e)` yields), so a failure carries a string. */
module Wrappers {

  datatype Option<+T> = None | Some(value: T)

  datatype Result<+T> = Success(value: T) | Failure(error: string)
}
