/** The optional value shared by the modules: `None` for a missing result,
    a Go `nil` error or a panic, `Some` for a present one. */
module Wrappers {
  datatype Option<T> = None | Some(value: T)
}
