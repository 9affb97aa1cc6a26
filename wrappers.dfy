/** The Option datatype used for JavaScript's `undefined` results (a `find`
    that finds nothing, an identifier that throws, a cursor that is not set). */
module Wrappers {
  datatype Option<+T> = None | Some(value: T)
}
