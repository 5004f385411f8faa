/** The optional value used where the source returns std::optional or a null pointer. */
module Wrappers {
  datatype Option<+T> = None | Some(value: T)
}
