/** The optional value the editors use for `null` / `undefined` slots. */
module Wrappers {

  datatype Option<+T> = None | Some(value: T)
}
