/** Python's `None`-able values. */
module Wrappers {

  datatype Option<+T> = None | Some(value: T)
}
