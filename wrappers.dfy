/** The nil-or-value shape of the Ruby instance variables of the model. */
module Wrappers {

  /** `None` stands for Ruby's `nil`. */
  datatype Option<T> = None | Some(value: T)
}
