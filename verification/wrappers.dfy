/** The optional value used wherever the service looks a row up and may find nothing. */
module Wrappers {

  datatype Option<+T> = None | Some(value: T)
}
