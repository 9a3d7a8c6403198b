/** The optional value used wherever the program has `None` or a missing result. */
module Wrappers {

  datatype Option<+T> = None | Some(value: T)
}
