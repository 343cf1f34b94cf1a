/** Status codes returned by the table operations (the `result_t` enumeration). */
module Keilo {

  /** The full enumeration; the table only ever returns Success, CannotFind,
      KeyOverlapped and KeyNotExist. */
  datatype ResultT =
    | Success
    | Fail
    | HasNoValue
    | CannotFind
    | AlreadyExist
    | KeyOverlapped
    | KeyNotExist
    | FileNotSupport
}
