/** The absent-or-present value used wherever the dashboard script yields `null`, `undefined` or `NaN`. */
module Wrappers {
  datatype Option<+T> = None | Some(value: T)
}
