/** The Option type used for Python's `None` / value results. */
module Wrappers {

  datatype Option<+T> = None | Some(value: T)
}
