/** What a driver call returns: a value or an error code. */
module Errno {
  datatype Errno = ENOMEM | EFAULT | EINVAL | EAGAIN

  datatype Result<T> = Ok(value: T) | Err(errno: Errno)
}
