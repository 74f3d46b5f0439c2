/** The optional value used wherever the page may lack an element or a lookup may miss. */
module Wrappers {
  datatype Option<+T> = None | Some(value: T)
}
