/** Outcome types shared by the catalog and credential models.
    A route of the service either returns a value or dies with one of the
    Python exceptions named below; `Err` records which one. */
module Wrappers {

  datatype Option<+T> = None | Some(value: T)

  /** The Python exceptions the modelled code can raise. */
  datatype PyError =
    | KeyError           // a missing dict key, e.g. `{}[0]`
    | IndexError         // a string index out of range, e.g. `""[0]`
    | TypeError          // a call or subscript on a value of the wrong kind
    | AttributeError     // `getattr` on a name the module does not have
    | UnboundLocalError  // a local variable read before any assignment

  datatype Result<+T> = Ok(value: T) | Err(error: PyError)
}
