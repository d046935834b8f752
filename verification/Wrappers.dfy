/** Values that may be missing, and operations that may fail. */
module Wrappers {

  datatype Option<+T> = None | Some(value: T)

  datatype Result<+T> = Failure | Success(value: T)
}
