/** Option: a value that may be absent (Kotlin's nullable types). */
module Wrappers {

  datatype Option<+T> = None | Some(value: T)

}
