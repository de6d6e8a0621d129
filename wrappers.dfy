/** The optional value used for operations that can fail without saying why. */
module Wrappers {

  datatype Option<+T> = None | Some(value: T)
}
