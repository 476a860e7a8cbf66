/**
  The vocabulary shared by every resource of the backend: the optional value
  that patch fields are wrapped in, and the failures that validation,
  sanitization and the create/read/update/delete operations report.
 */
module Resource {

  /** A value that may be absent; every field of a patch is one of these. */
  datatype Option<+T> = None | Some(value: T) {

    /** The value if present, otherwise `default`: how an absent patch field
        falls back to the value already there (or to a column default). */
    function GetOr(default: T): T {
      match this
      case Some(v) => v
      case None => default
    }
  }

  /** The failures an operation can report. */
  datatype Error =
    | ValidationError    // a required field is missing ("Email validation failed")
    | SanitizationError  // a present value is malformed ("Invalid Email Format")
    | NotFound           // no row carries the requested id
    | StorageError       // the store refused the write (constraint or id exhaustion)

  /** The outcome of an operation: a value, or the first failure met. */
  datatype Result<+T> = Ok(value: T) | Err(error: Error)
}
