/** The optional value used where the script returns `None`. */
module Wrappers {

  datatype Option<+T> = None | Some(value: T)
}
