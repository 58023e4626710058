/** Option and Result types shared by both sanitizers. */
module Wrappers {

  /** A value that may be absent. */
  datatype Option<+T> = None | Some(value: T)

  /** Either a value or an error: the model of Rust's `Result` and of a panic outcome. */
  datatype Result<+R, +E> = Success(value: R) | Failure(error: E)

  /** A byte, as produced by the Markdown renderer. */
  newtype byte = x: int | 0 <= x < 256
}
