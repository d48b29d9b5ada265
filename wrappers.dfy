/** Failure-carrying results: every `panic!`, `expect` and `unwrap` of the
    source becomes a `Fail` value instead of aborting the process. */
module Wrappers {

  datatype Option<+T> = None | Some(value: T)

  datatype Result<+T, +E> = Ok(value: T) | Fail(error: E)

  datatype Outcome<+E> = Pass | Stop(error: E)
}
