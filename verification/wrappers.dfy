/** The optional value used wherever the source returns `undefined`/`null`
    or accepts a nullable argument. */
module Wrappers {

  datatype Option<+T> = None | Some(value: T)
}
