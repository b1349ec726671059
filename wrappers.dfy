/** An optional value, for the places where the source returns `Option`. */
module Wrappers {

  datatype Option<T> = None | Some(value: T)
}
