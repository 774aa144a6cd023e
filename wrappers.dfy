/** Small helper datatypes shared by the modules of this model. */
module Wrappers {

  /** A value that may be absent: the model of a nullable result. */
  datatype Option<+T> = None | Some(value: T)
}
