/** The optional value the games use for "no piece" and "empty cell" (JavaScript's null). */
module Wrappers {
  datatype Option<+T> = None | Some(value: T)
}
