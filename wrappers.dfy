/** The optional value used wherever the updater returns `None` or a value. */
module Wrappers {

  datatype Option<+T> = None | Some(value: T)
}
