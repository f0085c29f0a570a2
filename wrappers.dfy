/** Failure-carrying results. The source signals errors by raising Python
    exceptions; the model returns the kind of exception instead. */
module Wrappers {

  /** The Python exceptions the modelled code can raise. */
  datatype PyError =
    | ValueError          // int() of a non-number, stars of a rank below 1, unknown extension
    | KeyError            // a missing dictionary key
    | IndexError          // a list index past the end
    | AssertionError      // a failed `assert`
    | ZeroDivisionError   // `1 / 0`
    | NotImplementedError // a stub
    | AttributeError      // reading a field of the text 'N/A'
    | TypeError           // a call with more arguments than parameters

  datatype Option<+T> = None | Some(value: T)

  datatype Result<+T> = Ok(value: T) | Err(error: PyError)
}
