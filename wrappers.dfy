/** The optional result the directory returns where the original returns `None`. */
module Wrappers {

  datatype Option<+T> = None | Some(value: T)

}
