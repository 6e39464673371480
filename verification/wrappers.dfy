/** The Some/None datatype used where the source returns `None` or a node. */
module Wrappers {

  datatype Option<+T> = None | Some(value: T)

}
