/** The optional value used wherever the PHP source returns `false` or `null`
    in place of a real value. */
module Wrappers {

  datatype Option<+T> = None | Some(value: T)

}
