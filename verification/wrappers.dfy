/** Python's `None`-or-value, as returned by attribute reads and stored in the JSON records. */
module Wrappers {

  datatype Option<+T> = None | Some(value: T)
}
