/** The optional value used where the source has a dictionary key that may be absent. */
module Wrappers {

  datatype Option<+T> = None | Some(value: T)

}
