/** Option and Result datatypes: `None` stands for a Java `null` reference,
    `Failure` for an exception thrown before any field is written. */
module Wrappers {

  datatype Option<+T> = None | Some(value: T)

  datatype Result<+T, +E> = Success(value: T) | Failure(error: E)
}
