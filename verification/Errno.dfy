/** The error numbers of the kernel that the driver returns, negated. */
module Errno {

  const EPERM := 1
  const ENOMEM := 12
  const EFAULT := 14
  const EINVAL := 22
  const ETIMEDOUT := 110
}
