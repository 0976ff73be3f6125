/** Failure-carrying wrappers shared by the whole model. */
module Wrappers {

  /** An optional value (Rust's `Option`). */
  datatype Option<+T> = None | Some(value: T)

  /** The kinds of I/O failure the hosts editors distinguish when reading the hosts file. */
  datatype IoError = NotFound | PermissionDenied

  /** A value or an I/O error (Rust's `io::Result`). */
  datatype Result<+T> = Ok(value: T) | Err(error: IoError)

  /**
   * The hosts file as the editors see it: absent, present but unreadable
   * by this process, or present with the given text.
   */
  datatype HostsFile = Missing | Unreadable | Present(text: string)
}
