/** The optional value used throughout the model: a bolt lookup that finds nothing, a size that could not be read. */
module Wrappers {

  datatype Option<+T> = None | Some(value: T)
}
