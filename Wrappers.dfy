/** The optional value used wherever best_efforts.js and index.js yield `null`,
    `undefined` or `NaN` instead of a value. */
module Wrappers {

  datatype Option<+T> = None | Some(value: T)
}
