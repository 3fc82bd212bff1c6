/** The optional value shared by the other modules: a stored value that may be
    missing, a navigation parameter that may be absent, a request that may not
    be sent. */
module Wrappers {

  datatype Option<T> = None | Some(value: T)
}
