/** The optional-value type used for a digit lookup that may find nothing
    (Rust's `Option<usize>` returned by `Iterator::position`). */
module Wrappers {

  datatype Option<+T> = None | Some(value: T)
}
