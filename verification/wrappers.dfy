/** An optional value, used for "no key pressed" and "session still running". */
module Wrappers {

  datatype Option<+T> = None | Some(value: T)
}
