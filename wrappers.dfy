/** Failure-carrying result types shared by the other modules. */
module Wrappers {

  datatype Option<T> = None | Some(value: T)

  /** A computation that either yields a value or fails with an error, the
      way a Java method either returns or throws. */
  datatype Result<T, E> = Success(value: T) | Failure(error: E)

  /** A computation without a value that either passes or fails, the way a
      `void` Java method either returns or throws. */
  datatype Outcome<E> = Pass | Fail(error: E)
}
