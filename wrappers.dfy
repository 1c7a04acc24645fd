/** The NULL-or-value results of the C functions: a NULL pointer is None. */
module Wrappers {
  datatype Option<+T> = None | Some(value: T)
}
