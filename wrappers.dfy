/** The optional result of a lookup: a found slot, entry or record, or nothing (a null pointer in the source). */
module Wrappers {
  datatype Option<+T> = None | Some(value: T)
}
