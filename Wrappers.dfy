/** The optional value that the election code expresses with Python's None. */
module Wrappers {
  datatype Option<+T> = None | Some(value: T)
}
