/** Optional values and pass/fail outcomes, used where the C# code has a null or throws. */
module Wrappers {

  datatype Option<+T> = None | Some(value: T)

  /** The result of a C# method that returns normally (Pass) or throws (Fail). */
  datatype Outcome<+E> = Pass | Fail(error: E)
}
