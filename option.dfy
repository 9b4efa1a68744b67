/** The conventional optional value, used for "no entry" and "no candidate yet". */
module Wrappers {

  datatype Option<T> = None | Some(value: T)

}
