/** The usual optional value, used for absent request fields, unset
    configuration and lookups that may find nothing. */
module Wrappers {

  datatype Option<+T> = None | Some(value: T)
}
