/** The optional value used for absent storage entries and failed lookups. */
module Wrappers {

  datatype Option<+T> = None | Some(value: T)
}
