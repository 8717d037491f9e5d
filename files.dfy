/** The tables behind file descriptors: the system-wide file_table[NR_FILE]
    and, of the current task, filp[NR_OPEN] and the close_on_exec bit mask
    (include/linux/fs.h, include/linux/sched.h). fs/open.c, fs/fcntl.c and
    fs/pipe.c change them. */
module Files {
  import opened FsDefs
  import opened Bits

  /** The lowest file_table index at or above from whose f_count is 0, or
      NR_FILE when there is none. */
  function FreeFile(table: seq<File>, from: int): (r: int)
    requires |table| == NR_FILE && 0 <= from <= NR_FILE
    ensures from <= r <= NR_FILE
    ensures r < NR_FILE ==> table[r].count == 0
    ensures forall i :: from <= i < r ==> table[i].count != 0
    decreases NR_FILE - from
  {
    if from == NR_FILE then NR_FILE
    else if table[from].count == 0 then from
    else FreeFile(table, from + 1)
  }

  /** The lowest descriptor at or above from whose filp slot is NULL, or
      NR_OPEN when there is none. */
  function FreeFd(filp: seq<int>, from: int): (r: int)
    requires |filp| == NR_OPEN && 0 <= from <= NR_OPEN
    ensures from <= r <= NR_OPEN
    ensures r < NR_OPEN ==> filp[r] == NULL
    ensures forall i :: from <= i < r ==> filp[i] != NULL
    decreases NR_OPEN - from
  {
    if from == NR_OPEN then NR_OPEN
    else if filp[from] == NULL then from
    else FreeFd(filp, from + 1)
  }

  /** A filp slot holds an index into file_table, or NULL. */
  const NULL: int := -1

  /** 1 << fd as a mask. */
  function FdBit(fd: nat): nat
  {
    Pow2(fd)
  }

  /** close_on_exec &= ~(1 << fd) clears bit fd and no other bit. */
  lemma ClearFdBit(mask: nat, fd: nat, k: nat)
    ensures Bit(AndNot(mask, FdBit(fd)), k) <==> Bit(mask, k) && k != fd
  {
    AndNotBit(mask, FdBit(fd), k);
    PowBit(fd, k);
  }

  /** close_on_exec |= 1 << fd sets bit fd and no other bit. */
  lemma SetFdBit(mask: nat, fd: nat, k: nat)
    ensures Bit(Or(mask, FdBit(fd)), k) <==> Bit(mask, k) || k == fd
  {
    OrBit(mask, FdBit(fd), k);
    PowBit(fd, k);
  }

  predicate FileOk(f: File)
  {
    0 <= f.flags < 0x1_0000 && -1 <= f.inode < NR_INODE
  }

  class Descriptors {
    /** file_table[NR_FILE]. */
    var table: seq<File>
    /** current->filp[NR_OPEN]: file_table indices, NULL for a free slot. */
    var filp: seq<int>
    /** current->close_on_exec. */
    var closeOnExec: nat

    ghost predicate Valid()
      reads this
    {
      |table| == NR_FILE && |filp| == NR_OPEN &&
      (forall i :: 0 <= i < NR_FILE ==> FileOk(table[i])) &&
      (forall fd :: 0 <= fd < NR_OPEN ==> -1 <= filp[fd] < NR_FILE)
    }

    /** Nothing open: every file_table entry and every slot free. */
    constructor ()
      ensures Valid() && closeOnExec == 0
      ensures forall i :: 0 <= i < NR_FILE ==> table[i].count == 0
      ensures forall fd :: 0 <= fd < NR_OPEN ==> filp[fd] == NULL
    {
      table := seq(NR_FILE, _ => File(0, 0, 0, -1, 0));
      filp := seq(NR_OPEN, _ => NULL);
      closeOnExec := 0;
    }

    /** The scan for the first empty descriptor slot at or above from. */
    method FindFd(from: int) returns (fd: int)
      requires Valid() && 0 <= from <= NR_OPEN
      ensures fd == FreeFd(filp, from)
    {
      fd := from;
      while fd < NR_OPEN && filp[fd] != NULL
        invariant from <= fd <= NR_OPEN
        invariant FreeFd(filp, fd) == FreeFd(filp, from)
      {
        fd := fd + 1;
      }
    }

    /** The scan for the first file table entry whose f_count is 0. */
    method FindFile() returns (i: int)
      requires Valid()
      ensures i == FreeFile(table, 0)
    {
      i := 0;
      while i < NR_FILE && table[i].count != 0
        invariant 0 <= i <= NR_FILE
        invariant FreeFile(table, i) == FreeFile(table, 0)
      {
        i := i + 1;
      }
    }
  }
}
