/** The optional value the three components return where Python returns `None`. */
module Wrappers {

  datatype Option<+T> = None | Some(value: T)
}
