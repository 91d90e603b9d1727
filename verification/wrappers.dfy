/** A value that may be missing: a failed request, an id that names no cell. */
module Wrappers {
  datatype Option<+T> = None | Some(value: T)
}
