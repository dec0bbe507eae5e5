/** The optional value used wherever the JavaScript code has `undefined`, `null`
    or "no result". */
module Wrappers {

  datatype Option<+T> = None | Some(value: T)
}
