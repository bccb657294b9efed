/** The optional value used for a widget that may hold nothing (no country selected, no photo). */
module Wrappers {

  datatype Option<+T> = None | Some(value: T)
}
