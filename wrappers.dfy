/** The optional value returned by a handler: Some(frame) when it redraws, None when it ignores the event. */
module Wrappers {
  datatype Option<+T> = None | Some(value: T)
}
