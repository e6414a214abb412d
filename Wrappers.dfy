/** Java's nullable references, as an explicit option. */
module Wrappers {

  /** `None` stands for `null`. */
  datatype Option<+T> = None | Some(value: T)
}
