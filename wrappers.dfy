/** The optional value used wherever the source returns `None` for "no answer". */
module Wrappers {

  datatype Option<+T> = None | Some(value: T)
}
