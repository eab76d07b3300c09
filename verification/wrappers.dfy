/** The optional value used for nullable slots of the board (the dragged
    candidate, the toast message) and for lookups that may find nothing. */
module Wrappers {

  datatype Option<+T> = None | Some(value: T)
}
