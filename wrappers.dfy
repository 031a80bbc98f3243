/** Optional values and pass/fail outcomes shared by the other modules. */
module Wrappers {

  datatype Option<+T> = None | Some(value: T)

  /** The result of an operation that returns only an error value (Go's `error`): nil is `Pass`. */
  datatype Outcome<+E> = Pass | Fail(error: E)
}
