/** Success-or-failure wrappers shared by the model.
    The Java program signals failure with exceptions; here every operation that
    can throw returns a `Result`, and the kind of failure is a `Fault`. */
module Outcomes {

  /** The exceptions of the program that the model distinguishes. */
  datatype Fault =
    /** `String.substring` was given an end index of -1 (no closing quote). */
    | IndexOutOfBounds
    /** Any network, file-system or address-parsing failure inside `saveResource`. */
    | FetchFailed

  datatype Option<+T> = None | Some(value: T)

  datatype Result<+T> = Ok(value: T) | Err(fault: Fault)
}
