/** The optional value used throughout the model for "absent" (an undefined
    field, a missing map entry, a match that does not exist). */
module Wrappers {
  datatype Option<+T> = None | Some(value: T)
}
