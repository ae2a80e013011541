/** The optional value used for the source's nullable pointers (a code blob, an
    oop map or a register location that may be nullptr). */
module Wrappers {
  datatype Option<+T> = None | Some(value: T)
}
