/** The optional value the model uses for Python's `None` and for
    operations that raise. */
module Wrappers {

  datatype Option<+T> = None | Some(value: T)
}
