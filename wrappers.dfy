/** The optional value used wherever the script has `null` or `undefined` for "nothing found". */
module Wrappers {
  datatype Option<T> = None | Some(value: T)
}
