/** Duplicating descriptors and the per-descriptor flags (fs/fcntl.c). The
    descriptors are unsigned in the C, so a negative one is out of range
    exactly as one of NR_OPEN or more is. */
module Fcntl {
  import opened Util
  import opened FsDefs
  import opened Errno
  import opened Bits
  import opened Files
  import opened Open

  /** fd names an open file of the current task. */
  predicate Opened(filp: seq<int>, fd: int)
    requires |filp| == NR_OPEN
  {
    0 <= fd < NR_OPEN && filp[fd] != NULL
  }

  /** dupfd. The copy goes to the lowest free slot at or above arg; it
      shares the file, whose f_count rises by one, and its close-on-exec bit
      is cleared. */
  method DupFd(d: Descriptors, fd: int, arg: int) returns (r: int)
    requires d.Valid()
    modifies d
    ensures d.Valid()
    ensures !Opened(old(d.filp), fd) ==> r == -EBADF
    ensures Opened(old(d.filp), fd) && !(0 <= arg < NR_OPEN) ==> r == -EINVAL
    ensures Opened(old(d.filp), fd) && 0 <= arg < NR_OPEN && FreeFd(old(d.filp), arg) == NR_OPEN ==> r == -EMFILE
    ensures Opened(old(d.filp), fd) && 0 <= arg < NR_OPEN && FreeFd(old(d.filp), arg) < NR_OPEN ==> r >= 0
    ensures r < 0 ==> d.table == old(d.table) && d.filp == old(d.filp) && d.closeOnExec == old(d.closeOnExec)
    ensures r >= 0 ==>
              Opened(old(d.filp), fd) && 0 <= arg < NR_OPEN && r == FreeFd(old(d.filp), arg) < NR_OPEN &&
              var f := old(d.filp)[fd];
              d.filp == old(d.filp)[r := f] &&
              d.table == old(d.table)[f := old(d.table)[f].(count := old(d.table)[f].count + 1)] &&
              d.closeOnExec == AndNot(old(d.closeOnExec), FdBit(r))
  {
    if fd < 0 || fd >= NR_OPEN || d.filp[fd] == NULL {
      return -EBADF;
    }
    if arg < 0 || arg >= NR_OPEN {
      return -EINVAL;
    }
    r := d.FindFd(arg);
    if r >= NR_OPEN {
      return -EMFILE;
    }
    d.closeOnExec := AndNot(d.closeOnExec, FdBit(r));
    var f := d.filp[fd];
    d.filp := d.filp[r := f];
    d.table := d.table[f := d.table[f].(count := d.table[f].count + 1)];
  }

  /** The new descriptor of a successful dup refers to the same file as the
      old one, and is not closed on exec. */
  lemma DupShares(filp: seq<int>, filp': seq<int>, mask: nat, fd: int, r: int)
    requires |filp| == NR_OPEN && Opened(filp, fd) && 0 <= r < NR_OPEN && filp' == filp[r := filp[fd]]
    ensures filp'[r] == filp'[fd] && !Bit(AndNot(mask, FdBit(r)), r)
    ensures forall k :: 0 <= k < NR_OPEN && k != r ==> filp'[k] == filp[k]
  {
    ClearFdBit(mask, r, r);
  }

  /** sys_dup: dupfd(fildes, 0). */
  method SysDup(d: Descriptors, fildes: int) returns (r: int)
    requires d.Valid()
    modifies d
    ensures d.Valid()
    ensures !Opened(old(d.filp), fildes) ==> r == -EBADF
    ensures Opened(old(d.filp), fildes) && FreeFd(old(d.filp), 0) == NR_OPEN ==> r == -EMFILE
    ensures r < 0 ==> d.table == old(d.table) && d.filp == old(d.filp) && d.closeOnExec == old(d.closeOnExec)
    ensures r >= 0 ==> r == FreeFd(old(d.filp), 0) && d.filp == old(d.filp)[r := old(d.filp)[fildes]]
  {
    r := DupFd(d, fildes, 0);
  }

  /** sys_dup2: sys_close(newfd), whose result is ignored, then
      dupfd(oldfd, newfd). When newfd was open it is free after the close,
      so a successful dup2 lands on newfd itself. release is the inode the
      close handed to iput. */
  method SysDup2(d: Descriptors, oldfd: int, newfd: int) returns (r: int, st: Status, release: int)
    requires d.Valid()
    modifies d
    ensures d.Valid()
    ensures st == Done && Opened(old(d.filp), oldfd) && oldfd != newfd && 0 <= newfd < NR_OPEN ==>
              r == newfd && d.filp[newfd] == old(d.filp)[oldfd]
    ensures st == Done && !(0 <= newfd < NR_OPEN) ==>
              r == (if Opened(old(d.filp), oldfd) then -EINVAL else -EBADF)
  {
    var closed;
    closed, st, release := SysClose(d, newfd);
    if st != Done {
      return -1, st, release;
    }
    r := DupFd(d, oldfd, newfd);
  }

  /** F_SETFL's new f_flags: O_APPEND and O_NONBLOCK taken from arg. */
  function SetFl(flags: nat, arg: nat): nat
  {
    Or(AndNot(flags, O_APPEND + O_NONBLOCK), And(arg, O_APPEND + O_NONBLOCK))
  }

  /** The bits of O_APPEND | O_NONBLOCK (0xC00) are 10 and 11. */
  lemma SetFlMaskBits(k: nat)
    ensures Bit(O_APPEND + O_NONBLOCK, k) <==> k == 10 || k == 11
  {
    Pow2Values();
    if k < 10 {
      LowBits(0xC00, 10, k);
      assert Pow2(10) == 1024;
      BitOfZero(k);
    } else {
      ShiftBit(0xC00, 10, k - 10);
      assert Pow2(10) == 1024;
      if k >= 12 {
        HighBitsClear(3, 2, k - 10);
      }
    }
  }

  /** F_SETFL changes bits 10 and 11 of f_flags to arg's and keeps all the
      others; the result is still an unsigned short. */
  lemma SetFlBits(flags: nat, arg: nat, k: nat)
    ensures Bit(SetFl(flags, arg), k) <==> if k == 10 || k == 11 then Bit(arg, k) else Bit(flags, k)
  {
    OrBit(AndNot(flags, O_APPEND + O_NONBLOCK), And(arg, O_APPEND + O_NONBLOCK), k);
    AndNotBit(flags, O_APPEND + O_NONBLOCK, k);
    AndBit(arg, O_APPEND + O_NONBLOCK, k);
    SetFlMaskBits(k);
  }

  lemma SetFlBound(flags: nat, arg: nat)
    requires flags < 0x1_0000
    ensures SetFl(flags, arg) < 0x1_0000
  {
    Pow2Values();
    OrBound(AndNot(flags, O_APPEND + O_NONBLOCK), And(arg, O_APPEND + O_NONBLOCK), 16);
  }

  /** sys_fcntl. arg is an unsigned long. */
  method SysFcntl(d: Descriptors, fd: int, cmd: int, arg: nat) returns (r: int)
    requires d.Valid()
    modifies d
    ensures d.Valid()
    ensures !Opened(old(d.filp), fd) ==> r == -EBADF
    ensures cmd != F_DUPFD ==> d.filp == old(d.filp)
    ensures cmd != F_DUPFD && cmd != F_SETFL ==> d.table == old(d.table)
    ensures cmd != F_DUPFD && cmd != F_SETFD ==> d.closeOnExec == old(d.closeOnExec)
    ensures Opened(old(d.filp), fd) ==>
              var f := old(d.filp)[fd];
              (cmd == F_GETFD ==> r == if Bit(old(d.closeOnExec), fd) then 1 else 0) &&
              (cmd == F_SETFD ==>
                 r == 0 &&
                 d.closeOnExec == if arg % 2 == 1 then Or(old(d.closeOnExec), FdBit(fd)) else AndNot(old(d.closeOnExec), FdBit(fd))) &&
              (cmd == F_GETFL ==> r == old(d.table)[f].flags) &&
              (cmd == F_SETFL ==> r == 0 && d.table == old(d.table)[f := old(d.table)[f].(flags := SetFl(old(d.table)[f].flags, arg))]) &&
              (!(F_DUPFD <= cmd <= F_SETFL) ==> r == -1)
    ensures Opened(old(d.filp), fd) && cmd == F_DUPFD ==>
              (r >= 0 ==> arg < NR_OPEN && r == FreeFd(old(d.filp), arg) && r < NR_OPEN && d.filp == old(d.filp)[r := old(d.filp)[fd]]) &&
              (arg >= NR_OPEN ==> r == -EINVAL)
  {
    if fd < 0 || fd >= NR_OPEN || d.filp[fd] == NULL {
      return -EBADF;
    }
    var f := d.filp[fd];
    if cmd == F_DUPFD {
      r := DupFd(d, fd, arg);
    } else if cmd == F_GETFD {
      r := if Bit(d.closeOnExec, fd) then 1 else 0;
    } else if cmd == F_SETFD {
      if arg % 2 == 1 {
        d.closeOnExec := Or(d.closeOnExec, FdBit(fd));
      } else {
        d.closeOnExec := AndNot(d.closeOnExec, FdBit(fd));
      }
      r := 0;
    } else if cmd == F_GETFL {
      r := d.table[f].flags;
    } else if cmd == F_SETFL {
      SetFlBound(d.table[f].flags, arg);
      d.table := d.table[f := d.table[f].(flags := SetFl(d.table[f].flags, arg))];
      r := 0;
    } else {
      r := -1;
    }
  }
}
