/** Failure-carrying datatypes shared by the whole model.
    `Outcome` stands for a Python call that either returns a value or raises. */
module Wrappers {

  datatype Option<+T> = None | Some(value: T)

  /** The exceptions the modelled code raises or lets escape. */
  datatype Error =
    | ZeroDivision                 // a division by a zero count
    | KeyMissing(key: string)      // a dict lookup of an absent key
    | BadValue(reason: string)     // int() of a non-numeric string, a failed unpacking
    | DecodeError                  // json.JSONDecodeError surfaced to the caller
    | NotAMapping                  // `.items()`/`dict.update` applied to a non-object value
    | ApiFailure(message: string)  // an exception raised by the translation backend

  datatype Outcome<+T> = Ok(value: T) | Raised(error: Error) {
    predicate IsFailure() { Raised? }

    function PropagateFailure<U>(): Outcome<U>
      requires Raised?
    {
      Raised(error)
    }

    function Extract(): T
      requires Ok?
    {
      value
    }
  }
}
