/** The optional value used where the JavaScript code has `null`, `undefined`
    or a thrown `TypeError`. */
module Wrappers {
  datatype Option<+T> = None | Some(value: T)
}
