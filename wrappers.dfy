/** The optional value used for results that may be missing: a failed read,
    or no watched file matching an event. */
module Wrappers {

  datatype Option<+T> = None | Some(value: T)
}
