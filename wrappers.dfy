/** Failure-carrying results shared by the model of climlib's wrangle module. */
module Wrappers {

  datatype Option<+T> = None | Some(value: T)

  /** The exceptions the modelled Python code can raise on its way to a result. */
  datatype Error =
    | MalformedName(name: string)   // IndexError: the basename has too few dot-separated fields
    | NotAnInteger(text: string)    // ValueError raised by int()
    | EmptyDate                     // IndexError: cdate[0] on an empty timestamp
    | Unreadable(name: string)      // the metadata reader could not open the file

  datatype Result<+T> = Success(value: T) | Failure(error: Error)
}
