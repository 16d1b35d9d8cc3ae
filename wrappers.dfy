/** The usual optional-value wrapper: `None` stands for JavaScript's `null` or
    `undefined` results (and for the all-null tuple the parsers return). */
module Wrappers {

  datatype Option<+T> = None | Some(value: T)
}
