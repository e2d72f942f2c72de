/** The optional value used where the component works with `undefined`
    (`Array.prototype.find`) or with a call that may throw. */
module Wrappers {
  datatype Option<+T> = None | Some(value: T)
}
