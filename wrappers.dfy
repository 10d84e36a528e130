/** The optional value the source returns from `barycentric` and `Iterator::next`. */
module Wrappers {
  datatype Option<+T> = None | Some(value: T)
}
