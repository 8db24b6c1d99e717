/** Small helper datatypes shared by the other modules. */
module Wrappers {

  /** An optional value: `None` where the program uses Python's `None`. */
  datatype Option<+T> = None | Some(value: T)
}
