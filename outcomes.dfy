/** Error kinds raised by the record managers, and the result types that
    carry them in place of PHP exceptions. */
module Outcomes {

  /** The exceptions the managers throw.
      - FileNotFound: the backing JSON file is not found (FileNotFoundException).
      - DuplicateKey: the key of a record being added is already stored (DuplicateKeyException).
      - NoSuchRecord: update or delete of an absent template id (a plain Exception).
      - UndefinedKey: a lookup of an absent key; PHP reads null from the array and
        the non-nullable return type then raises a TypeError.
      - SendFailed: any exception out of the send step, such as a warning the
        temporary error handler turns into an ErrorException, or a process
        time-out. */
  datatype Error = FileNotFound | DuplicateKey | NoSuchRecord | UndefinedKey | SendFailed

  /** The value of a call that returns something, or the error it raised. */
  datatype Result<T> = Ok(value: T) | Err(error: Error)

  /** A call that returns nothing either completes or raises an error. */
  datatype Outcome = Pass | Fail(error: Error)
}
