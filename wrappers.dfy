/** The optional value used for JavaScript's `null`/`undefined` results and for
    a `JSON.parse` call that throws. */
module Wrappers {

  datatype Option<+T> = None | Some(value: T)
}
