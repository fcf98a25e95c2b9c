/** The optional-value type used wherever the log parser yields "absent". */
module Wrappers {

  datatype Option<+T> = None | Some(value: T)

}
