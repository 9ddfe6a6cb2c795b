/** The optional value used wherever the source returns `None` or a regex fails to match. */
module Wrappers {
  datatype Option<+T> = None | Some(value: T)
}
