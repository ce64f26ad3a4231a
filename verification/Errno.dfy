/** The error codes the drivers return. */
module Errno {
  const ENOENT: int := -2
  const EIO: int := -5
  const EAGAIN: int := -11
  const ENOMEM: int := -12
  const EACCES: int := -13
  const EBUSY: int := -16
  const EINVAL: int := -22
  const ENODATA: int := -61
  const EOPNOTSUPP: int := -95
  const EPROBE_DEFER: int := -517
}
