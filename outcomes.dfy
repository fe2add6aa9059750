/** Python-level outcomes shared by the model: an optional value (Python's
    `None` or a value) and the result of evaluating an expression that may
    raise an exception nobody in the program catches. */
module Outcomes {

  /** `None` or a value, as `Optional[...]` in the source. */
  datatype Option<T> = None | Some(value: T)

  /** The exceptions the modelled code can let escape. */
  datatype PyError =
    | AttributeError   // a method called on a value of the wrong type
    | TypeError        // iterating over a value that is not iterable

  /** Either the value an expression returned, or the exception it raised. */
  datatype Py<T> = Ok(value: T) | Raise(error: PyError)
}
