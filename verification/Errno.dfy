/** The error codes of errno-base.h. */
module Errno {
  const ENOENT: int := 2
  const EIO: int := 5
  const EBADF: int := 9
  const EEXIST: int := 17
  const ENOTDIR: int := 20
  const EISDIR: int := 21
  const EINVAL: int := 22
}
