/** An optional value: the result of a step that may fault, and a parameter
    the caller may omit. */
module Wrappers {

  datatype Option<+T> = None | Some(value: T)
}
