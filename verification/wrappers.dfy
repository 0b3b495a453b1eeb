/** Explicit absence, used where the source returns `None` for "no item". */
module Wrappers {

  /** `None` is "nothing there"; `Some(v)` carries a stored value, even one
      that is itself empty. */
  datatype Option<+T> = None | Some(value: T)
}
