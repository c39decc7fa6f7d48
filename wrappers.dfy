/** The optional value returned by lookups that may fail (`Option` in the Rust source). */
module Wrappers {
  datatype Option<+T> = None | Some(value: T)
}
