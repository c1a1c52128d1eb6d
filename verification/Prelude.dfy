/** The optional value used wherever the source uses an `Option`. */
module Prelude {
  datatype Option<+T> = None | Some(value: T)
}
