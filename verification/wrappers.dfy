/** Failure-compatible Option and Result datatypes used throughout the model. */
module Wrappers {

  datatype Option<+T> = None | Some(value: T) {
    predicate IsFailure() {
      None?
    }

    function PropagateFailure<U>(): Option<U>
      requires None?
    {
      None
    }

    function Extract(): T
      requires Some?
    {
      value
    }
  }

  datatype Result<+R, +E> = Success(value: R) | Failure(error: E) {
    predicate IsFailure() {
      Failure?
    }

    function PropagateFailure<U>(): Result<U, E>
      requires Failure?
    {
      Failure(error)
    }

    function Extract(): R
      requires Success?
    {
      value
    }
  }
}

/** The exceptions the program can raise while rebuilding a hospital from a decoded value. */
module Errors {

  datatype Error =
    /** Python's KeyError: a dictionary has no entry for `key`. */
    | KeyError(key: string)
    /** Python's TypeError: raised by a constructor's isinstance check or by
        subscripting/iterating a value of the wrong kind. */
    | TypeError(message: string)
    /** A text field (department name, medical record, position) holding a
        non-string value; the program stores such values unchecked, the model
        keeps text fields as strings and refuses them instead. */
    | NonText(field: string)
    /** The data file exists but could not be opened or read as UTF-8 text;
        the program does not catch this, so it propagates out of loading. */
    | Unreadable

  const NotSubscriptable := "value is not subscriptable by a string key"
  const NotIterable := "value is not iterable"
}
