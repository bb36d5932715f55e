/** The JavaScript `undefined` / optional value, as the model uses it. */
module Wrappers {

  datatype Option<+T> = None | Some(value: T)
}
