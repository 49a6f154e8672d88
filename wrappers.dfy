/** The nullable values of the JavaScript source (`?T`) as an explicit Option. */
module Wrappers {

  datatype Option<+T> = None | Some(value: T)
}
