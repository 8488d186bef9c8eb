/** The optional value used for replies that may be missing: a fetch whose promise
    rejects, or a reply whose JSON cannot be read. */
module Wrappers {
  datatype Option<T> = None | Some(value: T)
}
