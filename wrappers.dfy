/** The optional value a storage lookup or a parser returns. */
module Wrappers {

  datatype Option<+T> = None | Some(value: T)
}
