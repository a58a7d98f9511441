/** Option and Result datatypes: `None` stands for a Java `null`, `Failure` for a thrown exception. */
module Wrappers {

  datatype Option<T> = None | Some(value: T)

  datatype Result<T, E> = Success(value: T) | Failure(error: E)
}
