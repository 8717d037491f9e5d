/** The read, write and lseek system calls (fs/read_write.c): checking the
    descriptor and the count, choosing the routine by the kind of inode, and
    cutting a read of a regular file or a directory down to its size. The
    descriptors are unsigned in the C, so a negative one is out of range
    just as one of NR_OPEN or more is. f_inode names a slot of inodes, the
    inode table. */
module ReadWrite {
  import opened Util
  import opened FsDefs
  import opened Errno
  import opened Files
  import opened Fcntl
  import opened Bitmap
  import opened Truncate
  import opened FileDev

  /** The tables sys_read, sys_write and sys_lseek look into. */
  predicate TablesOk(filp: seq<int>, table: seq<File>, inodes: seq<MInode>)
  {
    |filp| == NR_OPEN && |table| == NR_FILE && |inodes| == NR_INODE &&
    (forall fd :: 0 <= fd < NR_OPEN ==> -1 <= filp[fd] < NR_FILE) &&
    (forall i :: 0 <= i < NR_FILE ==> -1 <= table[i].inode < NR_INODE) &&
    (forall n :: 0 <= n < NR_INODE ==> |inodes[n].zone| == 9)
  }

  /** Bit 0 (read) and bit 1 (write) of f_mode, an unsigned short. */
  predicate MayRead(f: File) { (f.mode % 0x1_0000) % 2 == 1 }
  predicate MayWrite(f: File) { ((f.mode % 0x1_0000) / 2) % 2 == 1 }

  // ---------------------------------------------------------------------
  // sys_lseek

  /** Where origin 0, 1 or 2 counts from: 0, f_pos or i_size. */
  function Base(origin: int, pos: int, size: int): Option<int>
  {
    if origin == 0 then Some(0)
    else if origin == 1 then Some(pos)
    else if origin == 2 then Some(size)
    else None
  }

  /** The new f_pos of an lseek, or -EINVAL for an unknown origin or a
      position before the start of the file. */
  function Target(origin: int, pos: int, size: int, offset: int): (r: int)
    ensures r >= 0 <==> Base(origin, pos, size).Some? && Base(origin, pos, size).value + offset >= 0
    ensures r >= 0 ==> r == Base(origin, pos, size).value + offset
    ensures r < 0 ==> r == -EINVAL
  {
    match Base(origin, pos, size)
    case None => -EINVAL
    case Some(b) => if b + offset < 0 then -EINVAL else b + offset
  }

  /** The file behind fd, when fd is open and has an inode. */
  predicate HasInode(filp: seq<int>, table: seq<File>, fd: int)
    requires |filp| == NR_OPEN && |table| == NR_FILE && (forall k :: 0 <= k < NR_OPEN ==> -1 <= filp[k] < NR_FILE)
  {
    Opened(filp, fd) && table[filp[fd]].inode != NULL
  }

  /** sys_lseek(fd, offset, origin). -EBADF unless fd is open, has an
      inode and lies on a seekable major; -ESPIPE for a pipe; else f_pos
      moves to Target and is returned, or stays where it is with -EINVAL. */
  method SysLseek(d: Descriptors, inodes: seq<MInode>, fd: int, offset: int, origin: int) returns (r: int)
    requires d.Valid() && TablesOk(d.filp, d.table, inodes)
    modifies d
    ensures d.Valid() && d.filp == old(d.filp) && d.closeOnExec == old(d.closeOnExec)
    ensures !HasInode(old(d.filp), old(d.table), fd) ==> r == -EBADF && d.table == old(d.table)
    ensures HasInode(old(d.filp), old(d.table), fd) ==>
              var f := old(d.filp)[fd];
              var node := inodes[old(d.table)[f].inode];
              (!IsSeekable(Major(node.dev)) ==> r == -EBADF && d.table == old(d.table)) &&
              (IsSeekable(Major(node.dev)) && node.pipe ==> r == -ESPIPE && d.table == old(d.table)) &&
              (IsSeekable(Major(node.dev)) && !node.pipe ==>
                 r == Target(origin, old(d.table)[f].pos, node.size, offset) &&
                 d.table == if r >= 0 then old(d.table)[f := old(d.table)[f].(pos := r)] else old(d.table))
  {
    if fd < 0 || fd >= NR_OPEN || d.filp[fd] == NULL || d.table[d.filp[fd]].inode == NULL {
      return -EBADF;
    }
    var f := d.filp[fd];
    var node := inodes[d.table[f].inode];
    if !IsSeekable(Major(node.dev)) {
      return -EBADF;
    }
    if node.pipe {
      return -ESPIPE;
    }
    var pos := d.table[f].pos;
    if origin == 0 {
      if offset < 0 {
        return -EINVAL;
      }
      pos := offset;
    } else if origin == 1 {
      if pos + offset < 0 {
        return -EINVAL;
      }
      pos := pos + offset;
    } else if origin == 2 {
      var tmp := node.size + offset;
      if tmp < 0 {
        return -EINVAL;
      }
      pos := tmp;
    } else {
      return -EINVAL;
    }
    d.table := d.table[f := d.table[f].(pos := pos)];
    r := pos;
  }

  /** lseek never leaves f_pos negative: a position it sets is at least 0,
      and a refused one leaves the old f_pos. */
  lemma SeekNeverNegative(origin: int, pos: int, size: int, offset: int)
    ensures var r := Target(origin, pos, size, offset); r >= 0 || r == -EINVAL
    ensures pos >= 0 ==> var r := Target(origin, pos, size, offset); (if r >= 0 then r else pos) >= 0
  {
  }

  /** lseek(fd, 0, SEEK_CUR) reports f_pos and moves nothing; after
      lseek(fd, x, SEEK_SET) with x >= 0 it reports x; lseek(fd, 0,
      SEEK_END) gives i_size when that is not negative. */
  lemma SeekTell(pos: int, size: int, x: int)
    requires pos >= 0
    ensures Target(1, pos, size, 0) == pos
    ensures x >= 0 ==> var p := Target(0, pos, size, x); p == x && Target(1, p, size, 0) == x
    ensures size >= 0 ==> Target(2, pos, size, 0) == size
  {
  }

  /** Seeking by offset and then by offset' from the current position is
      seeking by their sum, when neither step goes before the start. */
  lemma SeekCurAdds(pos: int, size: int, offset: int, offset': int)
    requires pos + offset >= 0 && pos + offset + offset' >= 0
    ensures Target(1, Target(1, pos, size, offset), size, offset') == Target(1, pos, size, offset + offset')
  {
  }

  // ---------------------------------------------------------------------
  // sys_read and sys_write

  /** Where sys_read or sys_write sends a call: a value returned at once,
      read_pipe/write_pipe on the pipe inode, rw_char or block_read /
      block_write on the device in i_zone[0] with the file's f_pos, or
      file_read/file_write on the inode with the (clamped) count. NoInode
      is a file without an inode, which the C dereferences as it is. */
  datatype Route =
    | Returns(r: int)
    | NoInode
    | ToPipe(node: int)
    | ToChar(dev: int, file: int)
    | ToBlock(dev: int, file: int)
    | ToFile(node: int, file: int, count: int)

  /** The count a read of a regular file or a directory at f_pos goes on
      with: cut down to i_size - f_pos when it would run past i_size. */
  function Clamp(count: int, pos: int, size: int): int
  {
    if count + pos > size then size - pos else count
  }

  /** sys_read(fd, buf, count) up to the call of the routine that reads. */
  function ReadRoute(filp: seq<int>, table: seq<File>, inodes: seq<MInode>, fd: int, count: int): (r: Route)
    requires TablesOk(filp, table, inodes)
    ensures !Opened(filp, fd) || count < 0 ==> r == Returns(-EINVAL)
    ensures Opened(filp, fd) && count == 0 ==> r == Returns(0)
    ensures r.ToPipe? || r.ToChar? || r.ToBlock? || r.ToFile? ==> Opened(filp, fd) && count > 0
  {
    if fd < 0 || fd >= NR_OPEN || count < 0 || filp[fd] == NULL then Returns(-EINVAL)
    else if count == 0 then Returns(0)
    else
      var f := filp[fd];
      var n := table[f].inode;
      if n == NULL then NoInode
      else
        var node := inodes[n];
        if node.pipe then (if MayRead(table[f]) then ToPipe(n) else Returns(-EIO))
        else if IsChr(node.mode) then ToChar(node.zone[0], f)
        else if IsBlk(node.mode) then ToBlock(node.zone[0], f)
        else if IsDir(node.mode) || IsReg(node.mode) then
          var c := Clamp(count, table[f].pos, node.size);
          if c <= 0 then Returns(0) else ToFile(n, f, c)
        else Returns(-EINVAL)
  }

  /** sys_write(fd, buf, count) up to the call of the routine that writes. */
  function WriteRoute(filp: seq<int>, table: seq<File>, inodes: seq<MInode>, fd: int, count: int): (r: Route)
    requires TablesOk(filp, table, inodes)
    ensures !Opened(filp, fd) || count < 0 ==> r == Returns(-EINVAL)
    ensures Opened(filp, fd) && count == 0 ==> r == Returns(0)
    ensures r.ToPipe? || r.ToChar? || r.ToBlock? || r.ToFile? ==> Opened(filp, fd) && count > 0
  {
    if fd < 0 || fd >= NR_OPEN || count < 0 || filp[fd] == NULL then Returns(-EINVAL)
    else if count == 0 then Returns(0)
    else
      var f := filp[fd];
      var n := table[f].inode;
      if n == NULL then NoInode
      else
        var node := inodes[n];
        if node.pipe then (if MayWrite(table[f]) then ToPipe(n) else Returns(-EIO))
        else if IsChr(node.mode) then ToChar(node.zone[0], f)
        else if IsBlk(node.mode) then ToBlock(node.zone[0], f)
        else if IsReg(node.mode) then ToFile(n, f, count)
        else Returns(-EINVAL)
  }

  /** The inode behind an open descriptor with an inode. */
  function NodeOf(filp: seq<int>, table: seq<File>, inodes: seq<MInode>, fd: int): MInode
    requires TablesOk(filp, table, inodes) && HasInode(filp, table, fd)
  {
    inodes[table[filp[fd]].inode]
  }

  /** A read reaches a pipe exactly when the file is open for reading, and
      one on a pipe not open for reading fails with -EIO; the same holds of
      writes with the write bit. */
  lemma PipeNeedsMode(filp: seq<int>, table: seq<File>, inodes: seq<MInode>, fd: int, count: int)
    requires TablesOk(filp, table, inodes) && HasInode(filp, table, fd) && count > 0
    requires NodeOf(filp, table, inodes, fd).pipe
    ensures ReadRoute(filp, table, inodes, fd, count) == (if MayRead(table[filp[fd]]) then ToPipe(table[filp[fd]].inode) else Returns(-EIO))
    ensures WriteRoute(filp, table, inodes, fd, count) == (if MayWrite(table[filp[fd]]) then ToPipe(table[filp[fd]].inode) else Returns(-EIO))
  {
  }

  /** A read of a regular file or a directory goes to file_read with a
      positive count that ends at i_size at the latest, and is the full
      count when that fits; at or past i_size it returns 0 at once. */
  lemma ReadStaysInFile(filp: seq<int>, table: seq<File>, inodes: seq<MInode>, fd: int, count: int)
    requires TablesOk(filp, table, inodes) && HasInode(filp, table, fd) && count > 0
    requires var node := NodeOf(filp, table, inodes, fd); !node.pipe && (IsReg(node.mode) || IsDir(node.mode))
    ensures var node, f := NodeOf(filp, table, inodes, fd), table[filp[fd]];
            var r := ReadRoute(filp, table, inodes, fd, count);
            (f.pos >= node.size ==> r == Returns(0)) &&
            (f.pos < node.size ==>
               r.ToFile? && 0 < r.count <= count && f.pos + r.count <= node.size &&
               (f.pos + count <= node.size ==> r.count == count) &&
               (f.pos + count > node.size ==> f.pos + r.count == node.size))
  {
  }

  /** Writes go to file_write for regular files only: a write to a
      directory fails with -EINVAL, and nothing clamps a write. */
  lemma WriteOnlyRegular(filp: seq<int>, table: seq<File>, inodes: seq<MInode>, fd: int, count: int)
    requires TablesOk(filp, table, inodes) && HasInode(filp, table, fd) && count > 0
    requires !NodeOf(filp, table, inodes, fd).pipe
    ensures var node, r := NodeOf(filp, table, inodes, fd), WriteRoute(filp, table, inodes, fd, count);
            (IsDir(node.mode) ==> r == Returns(-EINVAL)) &&
            (IsReg(node.mode) ==> r == ToFile(table[filp[fd]].inode, filp[fd], count))
  {
  }

  /** The read half of sys_read for a regular file or a directory: the
      clamp, then file_read. What it delivers are the file's bytes from
      f_pos, and f_pos never moves past i_size by it. */
  method ReadRegular(v: Volume, inode: MInode, f: File, count: int, now: int)
    returns (st: Status, r: int, out: seq<Byte>, inode': MInode, f': File)
    requires v.Valid() && |inode.zone| == 9 && f.pos >= 0 && count > 0
    modifies v
    ensures v.Valid() && v.cached == old(v.cached) && v.zoneMap == old(v.zoneMap) && v.inodeMap == old(v.inodeMap)
    ensures ContentsOk(Contents(v.cached))
    ensures inode.size <= f.pos ==> st == Done && r == 0 && out == [] && f' == f && inode' == inode
    ensures st == Done ==>
              f'.pos == f.pos + |out| && |out| <= count &&
              (f.pos < inode.size ==> f'.pos <= inode.size) &&
              Agrees(Contents(v.cached), Layout(Contents(v.cached), inode.zone), f.pos, out) &&
              (r == |out| || (out == [] && r == -ERROR))
  {
    var c := Clamp(count, f.pos, inode.size);
    if c <= 0 {
      ContentsOfOk(v.cached);
      return Done, 0, [], inode, f;
    }
    st, r, out, inode', f' := FileRead(v, inode, f, c, now);
    RunBytes(Contents(v.cached), Layout(Contents(v.cached), inode.zone), f.pos / BLOCK_SIZE, f.pos % BLOCK_SIZE, c);
  }
}
