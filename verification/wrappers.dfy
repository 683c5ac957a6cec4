/** Optional values, results and outcomes used across the model. */
module Wrappers {

  /** Java's `Optional`; `None` also stands for a Java `null` reference. */
  datatype Option<+T> = None | Some(value: T)

  /** A value or the fatal runtime exception the Java code throws instead. */
  datatype Result<+T, +E> = Ok(value: T) | Err(error: E)

  /** The outcome of a `void` Java method: it returns normally or throws. */
  datatype Outcome<+E> = Pass | Fail(error: E)
}
