/** The optional value used for every link and for the not-yet-computed depth. */
module Wrappers {

  datatype Option<+T> = None | Some(value: T)

}
