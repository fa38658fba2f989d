/**
 * The exceptions the contact book raises, and the result types that carry
 * them as values instead of as control flow.
 */
module Failures {

  /** The Python exceptions the modelled code raises. */
  datatype Error =
    | PhoneFormatError  // Phone.check_phone finds no "(ddd)ddd-dd-dd" in the string
    | ValueError        // datetime refuses an impossible date, or strptime an unparsable string
    | IndexError        // list.pop with an index outside [-len, len)
    | KeyError          // dictionary lookup of a key that is not stored
    | AttributeError    // days_to_birthday on a Birthday that holds no date

  datatype Option<+T> = None | Some(value: T)

  /** A value, or the exception raised instead of producing it. */
  datatype Result<+T> = Ok(value: T) | Err(error: Error)

  /** An operation run for its effect: it either completed or raised. */
  datatype Outcome = Pass | Fail(error: Error)
}
