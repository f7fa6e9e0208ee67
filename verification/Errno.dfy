/** The errno values the C modules return, negated. */
module Errno {
  /** A positive errno, as a failing system call sets it. */
  type ErrorCode = e: int | e > 0 witness 1

  function Negative(e: int): int {
    -e
  }

  const EPERM: int := 1
  const EIO: int := 5
  const E2BIG: int := 7
  const EBUSY: int := 16
  const EINVAL: int := 22
  const ENOSPC: int := 28
  const EPROTO: int := 71
  const EBADMSG: int := 74
  const EMSGSIZE: int := 90
}
