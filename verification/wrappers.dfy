/** The optional value used throughout the model where the source returns `None`. */
module Wrappers {

  datatype Option<+T> = None | Some(value: T)
}
