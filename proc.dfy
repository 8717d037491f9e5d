/** The process table of include/linux/sched.h: task[NR_TASKS] of
    task_struct, the current task and the clock, shared by the scheduler
    (kernel/sched.c), the system calls of kernel/sys.c and kernel/signal.c,
    fork and exit. A task_struct is a record here; a task[i] pointer that is
    NULL is None. The 32-bit signal words (signal, blocked, sa_mask) are kept
    as their unsigned values. */
module Proc {
  import opened Util
  import opened Bits
  import opened FsDefs

  const NR_TASKS: int := 64
  const HZ: int := 100

  const TASK_RUNNING: int := 0
  const TASK_INTERRUPTIBLE: int := 1
  const TASK_UNINTERRUPTIBLE: int := 2
  const TASK_ZOMBIE: int := 3
  const TASK_STOPPED: int := 4

  const SIGHUP: int := 1
  const SIGKILL: int := 9
  const SIGALRM: int := 14
  const SIGCHLD: int := 17
  const SIGSTOP: int := 19

  const SA_NOMASK: int := 0x4000_0000
  const SA_ONESHOT: int := 0x8000_0000

  /** SIG_DFL and SIG_IGN. */
  const SIG_DFL: int := 0
  const SIG_IGN: int := 1

  const WORD: int := 0x1_0000_0000

  /** A 32-bit word: the unsigned value of a long. */
  type Word = x: int | 0 <= x < WORD

  /** _S(nr): the bit of signal nr. */
  function S(nr: int): (r: nat)
    requires 1 <= nr <= 32
    ensures r < WORD
  {
    PowBelow(nr - 1, 32);
    Pow32();
    Pow2(nr - 1)
  }

  lemma Pow32()
    ensures Pow2(32) == WORD
  {
    Pow2Values();
    assert Pow2(20) == 0x10_0000;
    assert Pow2(24) == 0x100_0000;
    assert Pow2(28) == 0x1000_0000;
    assert Pow2(32) == 0x1_0000_0000;
  }

  lemma {:induction false} PowBelow(k: nat, n: nat)
    requires k < n
    ensures Pow2(k) < Pow2(n)
    decreases n
  {
    if k < n - 1 {
      PowBelow(k, n - 1);
    }
  }

  /** The unsigned value of a C int or long. */
  function ToWord(x: int): (r: Word)
    ensures -WORD <= x < 0 ==> r == x + WORD
    ensures 0 <= x < WORD ==> r == x
  {
    x % WORD
  }

  /** The int a 32-bit word reads as. */
  function Signed(x: Word): (r: int)
    ensures -0x8000_0000 <= r < 0x8000_0000 && ToWord(r) == x
  {
    if x < 0x8000_0000 then x else x - WORD
  }

  /** C's / on a positive divisor: the quotient truncated towards zero. */
  function CDiv(a: int, b: int): (r: int)
    requires b > 0
    ensures a >= 0 ==> r == a / b
    ensures a < 0 ==> r == -((-a) / b)
  {
    if a >= 0 then a / b else -((-a) / b)
  }

  /** w | _S(nr): signal nr raised in the word w. */
  function Raise(w: Word, nr: int): (r: Word)
    requires 1 <= nr <= 32
  {
    Pow32();
    PowBelow(nr - 1, 32);
    OrBound(w, S(nr), 32);
    Or(w, S(nr))
  }

  /** Raising nr sets bit nr - 1 and leaves every other bit alone. */
  lemma RaiseBit(w: Word, nr: int, k: nat)
    requires 1 <= nr <= 32
    ensures Bit(Raise(w, nr), k) <==> Bit(w, k) || k == nr - 1
  {
    OrBit(w, S(nr), k);
    PowBit(nr - 1, k);
  }

  /** Raising a bit twice is raising it once. */
  lemma RaiseTwice(w: Word, nr: int)
    requires 1 <= nr <= 32
    ensures Raise(Raise(w, nr), nr) == Raise(w, nr)
  {
    forall k | 0 <= k < 32
      ensures Bit(Raise(Raise(w, nr), nr), k) <==> Bit(Raise(w, nr), k)
    {
      RaiseBit(Raise(w, nr), nr, k);
      RaiseBit(w, nr, k);
    }
    Pow32();
    SameBits(Raise(Raise(w, nr), nr), Raise(w, nr), 32);
  }

  /** struct sigaction */
  datatype SigAction = SigAction(handler: int, mask: Word, flags: Word, restorer: int)

  /** The registers of the task state segment that fork sets. */
  datatype Tss = Tss(backLink: int, esp0: int, ss0: int, eip: int, eflags: int,
                     eax: int, ecx: int, edx: int, ebx: int, esp: int, ebp: int, esi: int, edi: int,
                     es: int, cs: int, ss: int, ds: int, fs: int, gs: int, ldt: int, traceBitmap: int)

  /** The bases and limits of the code and data descriptors of the task's LDT. */
  datatype Ldt = Ldt(codeBase: int, codeLimit: int, dataBase: int, dataLimit: int)

  /** The signal part of task_struct: raised signals, the mask and the
      32 actions. */
  datatype Signals = Signals(signal: Word, blocked: Word, action: seq<SigAction>)

  /** pid, father, pgrp, session and leader. */
  datatype Ids = Ids(pid: int, father: int, pgrp: int, session: int, leader: int)

  /** The real, effective and saved user and group ids. */
  datatype Creds = Creds(uid: int, euid: int, suid: int, gid: int, egid: int, sgid: int)

  /** The layout of the task's memory: end of code, of data, the break and
      the start of the stack (start_code is a linear address). */
  datatype Mem = Mem(startCode: Word, endCode: Word, endData: Word, brk: Word, startStack: Word)

  /** The clock ticks used by the task and by its waited-for children, and
      its start time. */
  datatype Times = Times(utime: int, stime: int, cutime: int, cstime: int, startTime: int)

  /** The task's file system context: its terminal, umask, working and
      root directories and executable (inode table indices, -1 for NULL), the
      close-on-exec bits and the descriptors (file_table indices, NULL for
      a free descriptor). */
  datatype FsCtx = FsCtx(tty: int, umask: int, pwd: int, root: int, executable: int,
                         closeOnExec: Word, filp: seq<int>)

  /** task_struct, its fields grouped as above. */
  datatype Task = Task(state: int, counter: int, priority: int, exitCode: int, alarm: int,
    sigs: Signals, ids: Ids, cred: Creds, mem: Mem, times: Times, files: FsCtx, ldt: Ldt, tss: Tss)

  /** 16-bit ids. */
  predicate CredsOk(c: Creds)
  {
    0 <= c.uid < 0x1_0000 && 0 <= c.euid < 0x1_0000 && 0 <= c.suid < 0x1_0000 &&
    0 <= c.gid < 0x1_0000 && 0 <= c.egid < 0x1_0000 && 0 <= c.sgid < 0x1_0000
  }

  /** The shape every task keeps: 32 signal actions, NR_OPEN descriptors,
      16-bit user and group ids and umask, a positive priority (schedule
      relies on it) and a counter that is never negative. */
  predicate TaskOk(t: Task)
  {
    |t.sigs.action| == 32 && |t.files.filp| == NR_OPEN && CredsOk(t.cred) &&
    0 <= t.files.umask < 0x1_0000 && t.priority > 0 && t.counter >= 0
  }

  predicate TableOk(ts: seq<Option<Task>>)
  {
    |ts| == NR_TASKS && forall i :: 0 <= i < NR_TASKS && ts[i].Some? ==> TaskOk(ts[i].value)
  }

  /** suser(): the effective uid is root. */
  predicate Suser(t: Task)
  {
    t.cred.euid == 0
  }

  /** The 16-bit unsigned short a value of an int is stored as. */
  function Short(x: int): (r: int)
    ensures 0 <= r < 0x1_0000
    ensures 0 <= x < 0x1_0000 ==> r == x
  {
    x % 0x1_0000
  }

  /** The globals around the task table: task[], current, jiffies,
      startup_time and fork's last_pid (a long that starts at 0 and that
      find_empty_process keeps positive). */
  class Kernel {
    var task: seq<Option<Task>>
    var current: int
    var jiffies: int
    var startupTime: int
    var lastPid: int

    ghost predicate Valid()
      reads this
    {
      TableOk(task) && 0 <= current < NR_TASKS && task[current].Some? && task[0].Some? && jiffies >= 0 &&
      0 <= lastPid <= 0x7fff_ffff
    }

    /** *current */
    function Cur(): (t: Task)
      requires Valid()
      reads this
      ensures TaskOk(t)
    {
      task[current].value
    }

    /** current->field = ...: the current task replaced by t. */
    method SetCur(t: Task)
      requires Valid() && TaskOk(t)
      modifies this`task
      ensures Valid() && task == old(task)[current := Some(t)]
    {
      task := task[current := Some(t)];
    }
  }
}
