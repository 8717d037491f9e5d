/** Opening and closing files, and the attribute calls on a path
    (fs/open.c: sys_open, sys_close, sys_access, sys_chmod, sys_chown).
    Looking the path up (namei, open_namei) is done by the caller here: the
    operations take the inode it found, or its failure. */
module Open {
  import opened Util
  import opened FsDefs
  import opened Errno
  import opened Bits
  import opened Files

  /** The credentials of the current task: real and effective ids, and
      suser(), which is euid == 0. */
  datatype Task = Task(uid: int, gid: int, euid: int, umask: nat)

  predicate Suser(t: Task) { t.euid == 0 }

  // ---------------------------------------------------------------------
  // sys_close

  /** sys_close. The close-on-exec bit of fd is cleared even when the slot
      turns out to be empty. When the file's last reference goes, release
      names the inode-table slot that iput must drop (-1 for none). */
  method SysClose(d: Descriptors, fd: int) returns (r: int, st: Status, release: int)
    requires d.Valid()
    modifies d
    ensures d.Valid()
    ensures !(0 <= fd < NR_OPEN) ==>
              r == -EINVAL && st == Done && release == -1 &&
              d.table == old(d.table) && d.filp == old(d.filp) && d.closeOnExec == old(d.closeOnExec)
    ensures 0 <= fd < NR_OPEN ==> d.closeOnExec == AndNot(old(d.closeOnExec), FdBit(fd))
    ensures 0 <= fd < NR_OPEN && old(d.filp)[fd] == NULL ==>
              r == -EINVAL && st == Done && release == -1 && d.table == old(d.table) && d.filp == old(d.filp)
    ensures 0 <= fd < NR_OPEN && old(d.filp)[fd] != NULL ==>
              var f := old(d.filp)[fd];
              var n := old(d.table)[f].count;
              d.filp == old(d.filp)[fd := NULL] &&
              (n == 0 ==> st == Panic("Close: file count is 0") && d.table == old(d.table)) &&
              (n != 0 ==> st == Done && r == 0 && d.table == old(d.table)[f := old(d.table)[f].(count := n - 1)] &&
                          release == if n == 1 then old(d.table)[f].inode else -1)
  {
    release := -1;
    st := Done;
    if fd < 0 || fd >= NR_OPEN {
      return -EINVAL, st, release;
    }
    d.closeOnExec := AndNot(d.closeOnExec, FdBit(fd));
    var f := d.filp[fd];
    if f == NULL {
      return -EINVAL, st, release;
    }
    d.filp := d.filp[fd := NULL];
    if d.table[f].count == 0 {
      return 0, Panic("Close: file count is 0"), release;
    }
    var n := d.table[f].count - 1;
    d.table := d.table[f := d.table[f].(count := n)];
    if n != 0 {
      return 0, st, release;
    }
    release := d.table[f].inode;
    r := 0;
  }

  // ---------------------------------------------------------------------
  // sys_open

  /** What open_namei handed back: a negative error number, or the
      inode-table slot of the inode it opened, with that inode. */
  datatype Named = NameiFailed(err: int) | NameiOpened(slot: int, node: MInode)

  predicate NamedOk(n: Named)
  {
    match n
    case NameiFailed(err) => err < 0
    case NameiOpened(slot, node) => 0 <= slot < NR_INODE && 0 <= node.mode < 0x1_0000 && |node.zone| == 9
  }

  /** The controlling terminal of the task before and after: tty < 0 for
      none; pgrp says whether tty_table[tty].pgrp was set to the task's
      process group. */
  datatype Tty = Tty(leader: bool, tty: int, pgrp: bool)

  /** The part of sys_open that follows open_namei: a terminal (major 4) may
      become the controlling terminal of a session leader without one;
      /dev/tty (major 5) needs one. */
  function TtyOutcome(node: MInode, t: Tty): (r: Option<Tty>)
    requires |node.zone| == 9
    ensures r.None? <==> IsChr(node.mode) && Major(node.zone[0]) == 5 && t.tty < 0
    ensures r.Some? && r.value.tty != t.tty ==>
              IsChr(node.mode) && Major(node.zone[0]) == 4 && t.leader && t.tty < 0 &&
              r.value == Tty(t.leader, Minor(node.zone[0]), true)
    ensures r.Some? && r.value.tty == t.tty ==> r.value == t
  {
    if IsChr(node.mode) then
      if Major(node.zone[0]) == 4 then
        if t.leader && t.tty < 0 then Some(Tty(t.leader, Minor(node.zone[0]), true)) else Some(t)
      else if Major(node.zone[0]) == 5 && t.tty < 0 then None
      else Some(t)
    else Some(t)
  }

  /** sys_open with open_namei's outcome given as named. On success the
      descriptor is the lowest free one, its file the first free file_table
      entry, holding f_mode = i_mode, f_flags = flag (an unsigned short),
      f_count 1 and f_pos 0. Every failure leaves both tables as they were;
      release names an inode that iput must drop (-1 for none). The disk
      change check for block devices is not modelled. */
  method SysOpen(d: Descriptors, flag: int, named: Named, t: Tty) returns (r: int, t': Tty, release: int)
    requires d.Valid() && NamedOk(named)
    modifies d
    ensures d.Valid()
    ensures var fd := FreeFd(old(d.filp), 0);
            var i := FreeFile(old(d.table), 0);
            (fd == NR_OPEN ==> r == -EINVAL && d.closeOnExec == old(d.closeOnExec)) &&
            (fd < NR_OPEN ==> d.closeOnExec == AndNot(old(d.closeOnExec), FdBit(fd))) &&
            (fd < NR_OPEN && i == NR_FILE ==> r == -EINVAL) &&
            (fd < NR_OPEN && i < NR_FILE && named.NameiFailed? ==> r == named.err) &&
            (r < 0 ==> d.table == old(d.table) && d.filp == old(d.filp) && t' == t) &&
            (r >= 0 ==>
               fd < NR_OPEN && i < NR_FILE && named.NameiOpened? && r == fd &&
               TtyOutcome(named.node, t) == Some(t') &&
               d.filp == old(d.filp)[fd := i] &&
               d.table == old(d.table)[i := File(named.node.mode, flag % 0x1_0000, 1, named.slot, 0)])
    ensures named.NameiOpened? && FreeFd(old(d.filp), 0) < NR_OPEN && FreeFile(old(d.table), 0) < NR_FILE ==>
              (r < 0 <==> TtyOutcome(named.node, t).None?) &&
              (r < 0 ==> r == -EPERM && release == named.slot)
    ensures release != -1 ==> r == -EPERM
  {
    t', release := t, -1;
    var fd := d.FindFd(0);
    if fd >= NR_OPEN {
      return -EINVAL, t', release;
    }
    d.closeOnExec := AndNot(d.closeOnExec, FdBit(fd));
    var i := d.FindFile();
    if i >= NR_FILE {
      return -EINVAL, t', release;
    }
    r, t', release := Install(d, fd, i, flag, named, t);
  }

  /** sys_open once fd and the file_table entry i are chosen: take them,
      then give both back if open_namei failed or the terminal check refuses. */
  method Install(d: Descriptors, fd: int, i: int, flag: int, named: Named, t: Tty) returns (r: int, t': Tty, release: int)
    requires d.Valid() && NamedOk(named) && 0 <= fd < NR_OPEN && 0 <= i < NR_FILE
    requires d.filp[fd] == NULL && d.table[i].count == 0
    modifies d
    ensures d.Valid() && d.closeOnExec == old(d.closeOnExec)
    ensures named.NameiFailed? ==> r == named.err && release == -1
    ensures named.NameiOpened? ==> (r < 0 <==> TtyOutcome(named.node, t).None?)
    ensures named.NameiOpened? && TtyOutcome(named.node, t).None? ==> r == -EPERM && release == named.slot
    ensures r < 0 ==> d.table == old(d.table) && d.filp == old(d.filp) && t' == t
    ensures r >= 0 ==>
              named.NameiOpened? && r == fd && release == -1 && TtyOutcome(named.node, t) == Some(t') &&
              d.filp == old(d.filp)[fd := i] &&
              d.table == old(d.table)[i := File(named.node.mode, flag % 0x1_0000, 1, named.slot, 0)]
  {
    t', release := t, -1;
    ghost var table0, filp0 := d.table, d.filp;
    d.filp := d.filp[fd := i];
    d.table := d.table[i := d.table[i].(count := d.table[i].count + 1)];
    if named.NameiFailed? {
      d.filp := d.filp[fd := NULL];
      d.table := d.table[i := d.table[i].(count := 0)];
      assert d.table == table0 && d.filp == filp0;
      return named.err, t', release;
    }
    var tty := TtyOutcome(named.node, t);
    if tty.None? {
      d.filp := d.filp[fd := NULL];
      d.table := d.table[i := d.table[i].(count := 0)];
      assert d.table == table0 && d.filp == filp0;
      return -EPERM, t', named.slot;
    }
    t' := tty.value;
    d.table := d.table[i := File(named.node.mode, flag % 0x1_0000, 1, named.slot, 0)];
    r := fd;
  }

  // ---------------------------------------------------------------------
  // sys_chmod, sys_chown, sys_access

  /** sys_chmod on the inode namei found (None when it found none): it
      needs the owner or the superuser, and replaces the low twelve mode
      bits (mode & 07777) while keeping the file type. The inode is marked
      dirty. */
  function SysChmod(node: Option<MInode>, mode: int, t: Task): (r: (int, Option<MInode>))
    ensures node.None? ==> r == (-ENOENT, None)
    ensures node.Some? && t.euid != node.value.uid && !Suser(t) ==> r == (-EACCES, node)
    ensures node.Some? && (t.euid == node.value.uid || Suser(t)) ==>
              r.0 == 0 && r.1.Some? && r.1.value.dirt &&
              r.1.value.mode % 0x1000 == mode % 0x1000 && r.1.value.mode / 0x1000 == node.value.mode / 0x1000 &&
              r.1.value == node.value.(mode := r.1.value.mode, dirt := true)
  {
    match node
    case None => (-ENOENT, None)
    case Some(i) =>
      if t.euid != i.uid && !Suser(t) then (-EACCES, node)
      else (0, Some(i.(mode := mode % 0x1000 + (i.mode - i.mode % 0x1000), dirt := true)))
  }

  /** sys_chown: only the superuser may change the owner and the group. */
  function SysChown(node: Option<MInode>, uid: int, gid: int, t: Task): (r: (int, Option<MInode>))
    ensures node.None? ==> r == (-ENOENT, None)
    ensures node.Some? && !Suser(t) ==> r == (-EACCES, node)
    ensures node.Some? && Suser(t) ==> r == (0, Some(node.value.(uid := uid, gid := gid, dirt := true)))
  {
    match node
    case None => (-ENOENT, None)
    case Some(i) =>
      if !Suser(t) then (-EACCES, node)
      else (0, Some(i.(uid := uid, gid := gid, dirt := true)))
  }

  /** The shift sys_access applies to the permission bits: 6 for the owner
      and, as the code is written, 6 for a member of the file's group too
      (the group's own bits would need 3); others use the low bits. */
  function AccessShift(i: MInode, t: Task): (s: nat)
    ensures s == 0 || s == 6
  {
    if t.uid == i.uid then 6
    else if t.gid == i.gid then 6
    else 0
  }

  /** sys_access on the inode namei found, for the request mode & 7. It uses
      the real ids. Granted when every requested bit is set in the chosen
      class, or for root unless execution is asked of a file nobody may
      execute. */
  function SysAccess(node: Option<MInode>, mode: int, t: Task): (r: int)
    requires node.Some? ==> 0 <= node.value.mode
    ensures node.None? ==> r == -EACCES
    ensures r == 0 || r == -EACCES
    ensures node.Some? ==>
              (r == 0 <==>
                 (forall k :: 0 <= k < 3 && Bit(mode, k) ==> Bit(node.value.mode, AccessShift(node.value, t) + k)) ||
                 (t.uid == 0 && (!Bit(mode, 0) || Bit(node.value.mode, 0) || Bit(node.value.mode, 3) || Bit(node.value.mode, 6))))
  {
    match node
    case None => -EACCES
    case Some(i) =>
      var m := mode % 8;
      var res := (i.mode % 512) / Pow2(AccessShift(i, t));
      AccessBits(i, mode, t);
      if And(res % 8, m) == m then 0
      else if t.uid == 0 && (m % 2 == 0 || And(i.mode % 512, 0x49) != 0) then 0
      else -EACCES
  }

  /** The bit tests sys_access makes, read bit by bit. */
  lemma AccessBits(i: MInode, mode: int, t: Task)
    requires 0 <= i.mode
    ensures var m := mode % 8;
            var res := (i.mode % 512) / Pow2(AccessShift(i, t));
            (And(res % 8, m) == m <==> forall k :: 0 <= k < 3 && Bit(mode, k) ==> Bit(i.mode, AccessShift(i, t) + k)) &&
            (m % 2 == 0 <==> !Bit(mode, 0)) &&
            (And(i.mode % 512, 0x49) != 0 <==> Bit(i.mode, 0) || Bit(i.mode, 3) || Bit(i.mode, 6))
  {
    ClassGrant(i.mode, mode, AccessShift(i, t));
    ExecBits(i.mode);
    GrantBit(i.mode, mode, 0, 0);
  }

  /** (i_mode & 0777) >> s & 0007 & mode == mode, for the shifts sys_access
      uses, asks that every requested bit be set s places up. */
  lemma ClassGrant(imode: nat, mode: int, s: nat)
    requires s == 0 || s == 6
    ensures And(((imode % 512) / Pow2(s)) % 8, mode % 8) == mode % 8 <==>
            forall k :: 0 <= k < 3 && Bit(mode, k) ==> Bit(imode, s + k)
  {
    Pow2Values();
    var m := mode % 8;
    var res := (imode % 512) / Pow2(s);
    var a := res % 8;
    HasAll(a, m, 3);
    GrantBit(imode, mode, s, 0);
    GrantBit(imode, mode, s, 1);
    GrantBit(imode, mode, s, 2);
    assert (forall k :: 0 <= k < 3 && Bit(m, k) ==> Bit(a, k)) <==>
           (Bit(m, 0) ==> Bit(a, 0)) && (Bit(m, 1) ==> Bit(a, 1)) && (Bit(m, 2) ==> Bit(a, 2));
    assert (forall k :: 0 <= k < 3 && Bit(mode, k) ==> Bit(imode, s + k)) <==>
           (Bit(mode, 0) ==> Bit(imode, s)) && (Bit(mode, 1) ==> Bit(imode, s + 1)) && (Bit(mode, 2) ==> Bit(imode, s + 2));
  }

  lemma GrantBit(imode: nat, mode: int, s: nat, k: nat)
    requires s == 0 || s == 6
    requires k < 3
    ensures Bit(mode % 8, k) <==> Bit(mode, k)
    ensures Bit(((imode % 512) / Pow2(s)) % 8, k) <==> Bit(imode, s + k)
  {
    Pow2Values();
    LowBits(mode, 3, k);
    LowBits((imode % 512) / Pow2(s), 3, k);
    ShiftBit(imode % 512, s, k);
    LowBits(imode, 9, s + k);
  }

  /** i_mode & 0111 is non-zero exactly when some class may execute. */
  lemma ExecBits(mode: nat)
    ensures And(mode % 512, 0x49) != 0 <==> Bit(mode, 0) || Bit(mode, 3) || Bit(mode, 6)
  {
    Pow2Values();
    var a := And(mode % 512, 0x49);
    forall k | 0 <= k < 9
      ensures Bit(a, k) <==> (k == 0 || k == 3 || k == 6) && Bit(mode, k)
    {
      AndBit(mode % 512, 0x49, k);
      LowBits(mode, 9, k);
      MaskBits(k);
    }
    if a != 0 {
      var k := SomeBit(a);
      if k >= 9 {
        HighBitsClear(a, 9, k);
      }
    } else {
      BitOfZero(0);
      BitOfZero(3);
      BitOfZero(6);
    }
  }

  /** The bits of 0111 (0x49) are 0, 3 and 6. */
  lemma MaskBits(k: nat)
    requires k < 9
    ensures Bit(0x49, k) <==> k == 0 || k == 3 || k == 6
  {
    assert Bit(0x49, 0) && !Bit(0x49, 1) && !Bit(0x49, 2) && Bit(0x49, 3);
    assert !Bit(0x49, 4) && !Bit(0x49, 5) && Bit(0x49, 6) && !Bit(0x49, 7) && !Bit(0x49, 8);
  }

  /** A value with a set bit. */
  lemma SomeBit(x: nat) returns (k: nat)
    requires x != 0
    ensures Bit(x, k)
  {
    if x % 2 == 1 {
      k := 0;
    } else {
      var j := SomeBit(x / 2);
      k := j + 1;
    }
  }

  /** As written, a member of the file's group who is not its owner gets the
      owner's bits: a file of mode 0040 (readable by its group only) is
      refused to a group member, and one of mode 0400 is granted. */
  lemma GroupGetsOwnerBits()
    ensures var t := Task(5, 7, 5, 0);
            var i := EmptyInode.(mode := 0x20, uid := 1, gid := 7);
            var j := EmptyInode.(mode := 0x100, uid := 1, gid := 7);
            SysAccess(Some(i), 4, t) == -EACCES && SysAccess(Some(j), 4, t) == 0
  {
    var t := Task(5, 7, 5, 0);
    var i := EmptyInode.(mode := 0x20, uid := 1, gid := 7);
    var j := EmptyInode.(mode := 0x100, uid := 1, gid := 7);
    assert SysAccess(Some(i), 4, t) == -EACCES by {
      assert AccessShift(i, t) == 6 && Bit(4, 2) && !Bit(0x20, 8);
    }
    assert SysAccess(Some(j), 4, t) == 0 by {
      assert AccessShift(j, t) == 6 && Bit(0x100, 8);
    }
  }
}
