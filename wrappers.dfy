/** The optional value shared by the crossword and tic-tac-toe models. */
module Wrappers {

  /** Python's `None` / a present value. */
  datatype Option<+T> = None | Some(value: T)
}
