/** Python's `None`-or-value, as used for the optional category and tag lists. */
module Wrappers {

  datatype Option<+T> = None | Some(value: T)

}
