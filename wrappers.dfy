/** Option, for the source's "not found" answers. */
module Wrappers {

  datatype Option<+T> = None | Some(value: T)
}
