/** The optional value the program expresses with a NULL pointer. */
module Wrappers {
  datatype Option<+T> = None | Some(value: T)
}
