/** The optional value used where the Rust code returns `Option`. */
module Wrappers {

  datatype Option<+T> = None | Some(value: T)
}
