/** The optional value used for every fallible step of the model (a failed parse, an unwrap that would panic). */
module Wrappers {
  datatype Option<+T> = None | Some(value: T)
}
