/** The nullable references of the control (a selection, an anchor, a hovered cell, an RGB override). */
module Wrappers {
  datatype Option<+T> = None | Some(value: T)
}
