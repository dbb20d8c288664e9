/** The optional value used for the store's lookups ("None" when the
    persistence layer finds nothing). */
module Wrappers {

  datatype Option<+T> = None | Some(value: T)
}
