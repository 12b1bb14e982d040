/** The Python values and exceptions that both node trees deal in. */
module PyTypes {

  /** A scalar payload other than a string: numbers, booleans, dates and the like are
      compared only for equality; `NoneValue` is Python's None and `Int` an integer. */
  datatype Atom = NoneValue | Int(i: int) | Opaque(id: nat)

  /** The exceptions the metadata tree raises or lets through. */
  datatype Exc =
    | KeyError
    | IndexError
    | TypeError
    | ValueError
    | NotImplementedError
    | AttributeError(name: string)
    | OtherError(id: nat)   // any exception raised by caller-supplied code
}
