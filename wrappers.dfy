/** The optional value used for the tracker's "no active task" and "no start time" states,
    and for the result of parsing a rendered duration. */
module Wrappers {

  datatype Option<+T> = None | Some(value: T)
}
