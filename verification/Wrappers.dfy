/** A value that may be missing: what the source returns as `Option`. */
module Wrappers {
  datatype Option<+T> = None | Some(value: T)
}
