/** The optional value used throughout. */
module Prelude {
  datatype Option<+T> = None | Some(value: T)
}
