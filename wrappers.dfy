/** An optional value, for the pending direction the game keeps as `None` or a direction. */
module Wrappers {

  datatype Option<T> = None | Some(value: T)
}
