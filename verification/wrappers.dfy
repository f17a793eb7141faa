/** The optional value used wherever the library returns `Option`. */
module Wrappers {

  datatype Option<+T> = None | Some(value: T)
}
