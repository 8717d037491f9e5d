/** include/sys/wait.h: the waitpid options and the macros that take a
    status word apart. A status is an int; & 0377 and & 0xFF are % 256 and
    >> 8 is / 256 (Dafny's / and % round down, as the arithmetic shift and
    the two's-complement mask do). */
module Wait {

  const WNOHANG: int := 1
  const WUNTRACED: int := 2

  /** WIFEXITED(s); the macro's parenthesis is unbalanced, and this is the
      reading it evidently has: the low byte is 0. */
  predicate WIfExited(s: int)
  {
    s % 256 == 0
  }

  predicate WIfStopped(s: int)
  {
    s % 256 == 0x7f
  }

  function WExitStatus(s: int): (r: int)
    ensures 0 <= r < 256
  {
    (s / 256) % 256
  }

  function WTermSig(s: int): (r: int)
    ensures 0 <= r < 128
  {
    s % 128
  }

  function WStopSig(s: int): (r: int)
    ensures 0 <= r < 256
  {
    (s / 256) % 256
  }

  /** WIFSIGNALED(s): ((unsigned int) s - 1) & 0xFFFF < 0xFF. */
  predicate WIfSignaled(s: int)
  {
    (s % 0x1_0000_0000 - 1) % 0x1_0000 < 0xff
  }

  /** A 16-bit status is its high byte (WEXITSTATUS, WSTOPSIG) followed by
      its low byte; the low byte tells an exit (0) from a stop (0x7f). */
  lemma StatusBytes(s: int)
    requires 0 <= s < 0x1_0000
    ensures s == WExitStatus(s) * 256 + s % 256 && WExitStatus(s) == WStopSig(s)
    ensures !(WIfExited(s) && WIfStopped(s))
  {
  }

  /** The status waitpid stores for a stopped child, 0x7f, reads as
      stopped and not exited, with stop signal 0 (no signal number is
      stored); WIFSIGNALED holds for it as well. */
  lemma StoppedStatus()
    ensures WIfStopped(0x7f) && !WIfExited(0x7f) && WStopSig(0x7f) == 0
    ensures WIfSignaled(0x7f) && WTermSig(0x7f) == 0x7f
  {
  }
}
