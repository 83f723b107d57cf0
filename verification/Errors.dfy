// The error numbers the modelled functions return, and the shape of their results.

/** Error numbers and results: a C function returning 0 or a negative errno returns a `Result` here. */
module Errors {
  datatype Errno = EINVAL | EIO | ENOSPC | ENOENT | EEXIST | EBUSY | ENAMETOOLONG | ENOTSUP | ENOMEM

  datatype Result<+T> = Ok(value: T) | Err(errno: Errno)

  datatype Status = Done | Failed(errno: Errno)

  /** What an access to the disk can fail with: it is refused, or memory or the cipher fails. */
  type AccessErrno = e: Errno | e in {EINVAL, EIO, ENOMEM} witness EIO

  function StatusOf<T>(r: Result<T>): Status {
    if r.Ok? then Done else Failed(r.errno)
  }
}
