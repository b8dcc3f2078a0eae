/** The optional value an lxml accessor returns: an attribute or a text that may be missing. */
module Wrappers {

  datatype Option<+T> = None | Some(value: T)

}
