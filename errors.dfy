/** Error values of the parser. Only the kind of an error and the text or
    number it names are modelled, not the wording of the message. */
module Errors {

  datatype Error =
    | FormatError(line: string)          // wrong number of parts around ':', '->' or '<-'
    | ValueError(text: string)           // not an integer, or a declared number below 1
    | UnknownOptionError(token: string)  // an option keyword the registry does not know
    | ReferenceError(number: int)        // a node number missing from the node table
    | SelfReferenceError(number: int)    // a dependency from a node to itself

  /** A value or an error, for functions that return `(T, error)`. */
  datatype Result<+T> = Ok(value: T) | Err(error: Error)

  /** A bare `error` return: nil or an error. */
  datatype Outcome = Pass | Fail(error: Error)
}
