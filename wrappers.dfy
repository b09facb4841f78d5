/** The optional value used for Python's "may raise" and "may be absent" paths. */
module Wrappers {

  datatype Option<+T> = None | Some(value: T)
}
