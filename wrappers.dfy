/** Swift's `Optional`: `nil` is `None`, a present value is `Some`. */
module Wrappers {

  datatype Option<+T> = None | Some(value: T)
}
