/** The optional value that the map's state, its lookups and its cursor are built from. */
module Wrappers {

  datatype Option<+T> = None | Some(value: T)
}
