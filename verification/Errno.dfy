/** The error numbers the modelled calls return, negated. */
module Errno {
  const ENOENT := 2
  const EBADF := 9
  const ENOTDIR := 20
  const EISDIR := 21
  const EINVAL := 22
  const ENFILE := 23
  const EMFILE := 24
  const ENOSPC := 28
  const ENOTEMPTY := 39
}
