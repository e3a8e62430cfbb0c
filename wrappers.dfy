/** The optional value used for the model's partial functions. */
module Wrappers {
  datatype Option<+T> = None | Some(value: T)
}
