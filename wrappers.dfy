/** The optional-value wrapper used for every stage that can fail (the source returns `None`). */
module Wrappers {
  datatype Option<+T> = None | Some(value: T)
}
