/** A value that may be missing, as the source's exceptions and error returns leave it. */
module Wrappers {
  datatype Option<+T> = None | Some(value: T)
}
