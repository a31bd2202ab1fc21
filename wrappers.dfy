/** Wrapper types shared by the ledger and the consensus modules. */
module Wrappers {
  datatype Option<+T> = None | Some(value: T)
}
