/** The optional value used where the server has "no value" (a nil connection,
    a message the line decoder does not recognise, a panicking expression). */
module Wrappers {

  datatype Option<+T> = None | Some(value: T)
}
