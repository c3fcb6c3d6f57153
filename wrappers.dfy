/** The optional value used where the source keeps `None` until a fit has run. */
module Wrappers {
  datatype Option<+T> = None | Some(value: T)
}
