/** The option type used for "undefined" results throughout the model. */
module Wrappers {

  /** `None` plays the role of JavaScript's `undefined` return. */
  datatype Option<+T> = None | Some(value: T)
}
