/** The optional value used for the terminal-size query and for the decoders. */
module Wrappers {
  datatype Option<+T> = None | Some(value: T)
}
