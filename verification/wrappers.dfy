/** The optional value used by the decoders and the token parser. */
module Wrappers {

  /** Either no value (a rejected input) or `Some` value. */
  datatype Option<+T> = None | Some(value: T)
}
