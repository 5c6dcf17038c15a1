/** Failure-carrying result types shared by the whole model. A thrown exception of the source
    becomes a `Fail`/`Err` value carrying the reason. */
module Common {

  datatype Option<T> = None | Some(value: T)

  /** The outcome of an operation that returns nothing (C# `void`) but may throw. */
  datatype Outcome<E> = Pass | Fail(error: E)

  /** The outcome of an operation that computes a value but may throw. */
  datatype Result<T, E> = Ok(value: T) | Err(error: E)
}
