/** Optional values and pass/fail outcomes shared by the other modules. */
module Wrappers {

  /** Python's `Optional[T]`: a value or `None`. */
  datatype Option<+T> = None | Some(value: T)

  /** The outcome of an operation whose only failure is a fatal assertion. */
  datatype Outcome<+E> = Pass | Fail(error: E)
}
