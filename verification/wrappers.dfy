/** The optional value used for the snake's pending direction, its vacated
    cell and the outcome of the apple's rejection sampling. */
module Wrappers {

  /** `None` stands for Python's `None`. */
  datatype Option<+T> = None | Some(value: T)
}
