/** The optional value used where the source returns `Option` (Rust) or may find nothing. */
module Wrappers {
  datatype Option<+T> = None | Some(value: T)
}
