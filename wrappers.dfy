/** The one failure-compatible wrapper the model needs: an index computation that
    throws in the source returns None here. */
module Wrappers {

  datatype Option<+T> = None | Some(value: T)
}
