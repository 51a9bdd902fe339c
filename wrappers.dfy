/** Nullable values: a SQL NULL column or a JavaScript `undefined` lookup. */
module Wrappers {

  datatype Option<+T> = None | Some(value: T)
}
