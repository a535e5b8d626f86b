/** Option, as JavaScript's `undefined`/`null` results are modelled throughout. */
module Wrappers {

  datatype Option<+T> = None | Some(value: T)
}
