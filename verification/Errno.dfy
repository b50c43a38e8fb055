/**
 * The error numbers that the modelled calls return, negated, as in src/lib/include/errno.h; EOVERFLOW, which is not
 * listed there, has its usual value.
 */
module Errno {
  const ENOENT: int := 2
  const EIO: int := 5
  const ENOMEM: int := 12
  const EFAULT: int := 14
  const EEXIST: int := 17
  const ENOTDIR: int := 20
  const EISDIR: int := 21
  const EINVAL: int := 22
  const EFBIG: int := 27
  const ENOSPC: int := 28
  const ENAMETOOLONG: int := 36
  const ENOTEMPTY: int := 39
  const EOVERFLOW: int := 75
}
