/** The optional-value type shared by the other modules: `None` stands for
    Python's `None` parent link and for a key missing from the node map. */
module Wrappers {
  datatype Option<+T> = None | Some(value: T)
}
