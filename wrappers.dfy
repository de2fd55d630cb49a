/** Failure-carrying wrappers: `Option` stands for a Java reference that may be
    null, `Result` for a call that returns a value or throws, `Outcome` for a
    `void` call that returns normally or throws. */
module Wrappers {

  datatype Option<+T> = None | Some(value: T)

  datatype Result<+T, +E> = Ok(value: T) | Err(error: E)

  datatype Outcome<+E> = Pass | Fail(error: E)
}
