/** The error numbers of include/errno.h and the open-flag and fcntl
    command values of include/fcntl.h. Octal values of the headers are
    written in hexadecimal. */
module Errno {
  const EPERM: int := 1
  const ENOENT: int := 2
  const ESRCH: int := 3
  const EINTR: int := 4
  const EIO: int := 5
  const ENOEXEC: int := 8
  const EBADF: int := 9
  const ECHILD: int := 10
  const EAGAIN: int := 11
  const ENOMEM: int := 12
  const EACCES: int := 13
  const EFAULT: int := 14
  const ENOTBLK: int := 15
  const EBUSY: int := 16
  const EEXIST: int := 17
  const ENOTDIR: int := 20
  const EISDIR: int := 21
  const EINVAL: int := 22
  const ENFILE: int := 23
  const EMFILE: int := 24
  const ENOSPC: int := 28
  const ESPIPE: int := 29
  const EPIPE: int := 32
  const ENOTEMPTY: int := 39
  const ERROR: int := 99

  // Open flags (00003, 00, 01, 02, 00100, 00200, 00400, 01000, 02000, 04000).
  const O_ACCMODE: int := 0x3
  const O_RDONLY: int := 0x0
  const O_WRONLY: int := 0x1
  const O_RDWR: int := 0x2
  const O_CREAT: int := 0x40
  const O_EXCL: int := 0x80
  const O_NOCTTY: int := 0x100
  const O_TRUNC: int := 0x200
  const O_APPEND: int := 0x400
  const O_NONBLOCK: int := 0x800

  // fcntl commands.
  const F_DUPFD: int := 0
  const F_GETFD: int := 1
  const F_SETFD: int := 2
  const F_GETFL: int := 3
  const F_SETFL: int := 4
  const F_GETLK: int := 5
  const F_SETLK: int := 6
  const F_SETLKW: int := 7
}
