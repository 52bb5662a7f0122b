/** The source's `Topic | null` results. */
module Wrappers {
  datatype Option<+T> = None | Some(value: T)
}
