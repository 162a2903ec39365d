/** An optional value: what Python expresses with `None` or a caught exception. */
module Wrappers {
  datatype Option<+T> = None | Some(value: T)
}
