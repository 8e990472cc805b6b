/** The optional result of a lookup: a cache `find` either yields the stored
    value or reports that the key is not cached. */
module Wrappers {

  datatype Option<+T> = None | Some(value: T)
}
