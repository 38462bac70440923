/** The usual optional value, used for "no match", "no file" and Qt's empty formats. */
module Wrappers {

  datatype Option<+T> = None | Some(value: T)

}
