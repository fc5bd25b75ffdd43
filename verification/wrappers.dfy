/** The Some/None datatype, used for React state that starts out undefined
    and for a select box that may report no value. */
module Wrappers {

  datatype Option<+T> = None | Some(value: T)
}
