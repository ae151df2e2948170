/** The exceptions the archive code raises, as values. */
module Errors {

  /** Each case names the Ruby exception and the condition that raises it. */
  datatype Failure =
    | NameTooLong       // RuntimeError "too long filename": name of 100 bytes or more
    | UnsupportedMode   // RuntimeError "unsupported mode": open mode other than x, a, w
    | FileExists        // Errno::EEXIST: mode 'x' on an existing file
    | ChecksumMismatch  // Errno::EBADF: a header record fails its checksum
    | NilRecord         // NoMethodError: a header was expected but the read returned nil
    | ShortRecord       // ArgumentError / NoMethodError: a field lies past the end of a short last record
    | InvalidPosition   // Errno::EINVAL: seek to a negative position

  datatype Result<T> = Ok(value: T) | Raise(error: Failure) {
    predicate IsFailure() { Raise? }

    function PropagateFailure<U>(): Result<U>
      requires Raise?
    {
      Raise(error)
    }

    function Extract(): T
      requires Ok?
    {
      value
    }
  }
}
