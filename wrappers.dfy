/** An optional value, used for the source's `Try…(out …)` results and nullable lookups. */
module Wrappers {

  datatype Option<+T> = None | Some(value: T)
}
