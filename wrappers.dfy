/** Kotlin's nullable values (`T?`), as an explicit Option. */
module Wrappers {

  datatype Option<+T> = None | Some(value: T)

}
