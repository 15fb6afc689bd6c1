/** The optional value used for "no resource" and for a transform that failed. */
module Wrappers {

  datatype Option<+T> = None | Some(value: T)
}
