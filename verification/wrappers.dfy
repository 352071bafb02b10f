/** Nullable values of the Kotlin and Java sources. */
module Wrappers {

  /** `None` stands for `null`. */
  datatype Option<+T> = None | Some(value: T)
}
