/** The in-memory inode table and the on-disk inodes (fs/inode.c:
    get_empty_inode, get_pipe_inode, iput, invalidate_inodes, sync_inodes,
    read_inode, write_inode; fs/bitmap.c: free_inode, new_inode). The inode
    blocks of each device are shown as sequences of 32 disk inodes rather
    than as bytes of buffers. No other task runs: an inode is never found
    locked, and the waits for one are not modelled. */
module InodeTable {
  import opened Util
  import opened FsDefs
  import opened Bitmap
  import opened Truncate

  /** struct d_inode: the first seven fields of struct m_inode (i_time is
      the in-memory i_mtime). */
  datatype DInode = DInode(mode: int, uid: int, size: int, time: int, gid: int, nlinks: int, zone: seq<int>)

  /** The disk fields of an in-memory inode, as write_inode copies them out. */
  function ToDisk(i: MInode): DInode
  {
    DInode(i.mode, i.uid, i.size, i.mtime, i.gid, i.nlinks, i.zone)
  }

  /** An in-memory inode with its disk fields taken from d, as read_inode
      copies them in: the other fields are left alone. */
  function FromDisk(i: MInode, d: DInode): MInode
  {
    i.(mode := d.mode, uid := d.uid, size := d.size, mtime := d.time, gid := d.gid, nlinks := d.nlinks, zone := d.zone)
  }

  /** Copying the disk fields out and back in are inverses. */
  lemma DiskFieldsRoundTrip(i: MInode, d: DInode)
    ensures FromDisk(i, ToDisk(i)) == i
    ensures ToDisk(FromDisk(i, d)) == d
  {
  }

  /** The super-block fields read_inode and write_inode need: s_imap_blocks
      and s_zmap_blocks. */
  datatype Geometry = Geometry(imapBlocks: int, zmapBlocks: int)

  /** The block and slot of inode num: the boot block, the super block and
      the two bitmaps come first, then INODES_PER_BLOCK inodes per block
      from inode 1 on. (i_num - 1) meets the unsigned INODES_PER_BLOCK, so
      the division and remainder see it as an unsigned 32-bit value. */
  function Location(g: Geometry, num: int): (int, int)
  {
    var k := (num - 1) % 0x1_0000_0000;
    (2 + g.imapBlocks + g.zmapBlocks + k / INODES_PER_BLOCK, k % INODES_PER_BLOCK)
  }

  /** Inodes 1, 2, ... fill the block after the bitmaps slot by slot, and
      distinct inode numbers (an unsigned short each) have distinct places. */
  lemma LocationOfFirst(g: Geometry)
    ensures Location(g, 1) == (2 + g.imapBlocks + g.zmapBlocks, 0)
  {
  }

  lemma LocationInjective(g: Geometry, n1: int, n2: int)
    requires 0 <= n1 < 0x1_0000 && 0 <= n2 < 0x1_0000 && n1 != n2
    ensures Location(g, n1) != Location(g, n2)
  {
    var k1, k2 := (n1 - 1) % 0x1_0000_0000, (n2 - 1) % 0x1_0000_0000;
    assert k1 != k2;
    if k1 / INODES_PER_BLOCK == k2 / INODES_PER_BLOCK {
      assert k1 == INODES_PER_BLOCK * (k1 / INODES_PER_BLOCK) + k1 % INODES_PER_BLOCK;
      assert k2 == INODES_PER_BLOCK * (k2 / INODES_PER_BLOCK) + k2 % INODES_PER_BLOCK;
    }
  }

  /** Inode 0 wraps around: its block lies 2^27 blocks past the inode area. */
  lemma LocationOfZero(g: Geometry)
    ensures Location(g, 0) == (2 + g.imapBlocks + g.zmapBlocks + 0x7FF_FFFF, 31)
  {
  }

  /** The inode blocks of every device: (device, block) to 32 disk inodes.
      A missing block is one whose bread fails. */
  type Disk = map<(int, int), seq<DInode>>

  /** The place of an inode on its device, when its block can be read. */
  predicate Readable(disk: Disk, g: Geometry, dev: int, num: int)
  {
    var (b, s) := Location(g, num);
    (dev, b) in disk && |disk[(dev, b)]| == INODES_PER_BLOCK && 0 <= s < INODES_PER_BLOCK
  }

  /** read_inode: the disk fields of the inode are replaced by the disk
      inode at its place. No super block for the device, or an unreadable
      block, panics. */
  function ReadInode(disk: Disk, supers: map<int, Geometry>, i: MInode): Result<MInode>
  {
    if i.dev !in supers then Fail("trying to read inode without dev")
    else if !Readable(disk, supers[i.dev], i.dev, i.num) then Fail("unable to read i-node block")
    else
      var (b, s) := Location(supers[i.dev], i.num);
      Ok(FromDisk(i, disk[(i.dev, b)][s]))
  }

  /** write_inode: a clean inode, or one without a device, is left alone;
      otherwise its disk fields are stored at its place, the inode block
      becomes dirty (not shown) and the inode clean. */
  function WriteInode(disk: Disk, supers: map<int, Geometry>, i: MInode): Result<(Disk, MInode)>
  {
    if !i.dirt || i.dev == 0 then Ok((disk, i))
    else if i.dev !in supers then Fail("trying to write inode without device")
    else if !Readable(disk, supers[i.dev], i.dev, i.num) then Fail("unable to read i-node block")
    else
      var (b, s) := Location(supers[i.dev], i.num);
      Ok((disk[(i.dev, b) := disk[(i.dev, b)][s := ToDisk(i)]], i.(dirt := false)))
  }

  /** Reading an inode back after writing it gives the inode that was written. */
  lemma ReadAfterWrite(disk: Disk, supers: map<int, Geometry>, i: MInode)
    requires i.dirt && i.dev != 0 && WriteInode(disk, supers, i).Ok?
    ensures ReadInode(WriteInode(disk, supers, i).value.0, supers, i) == Ok(i)
  {
  }

  /** Writing an inode does not change what is read for another inode
      number of an unsigned-short range on the same device, or for any
      inode of another device. */
  lemma WriteKeepsOthers(disk: Disk, supers: map<int, Geometry>, i: MInode, j: MInode)
    requires WriteInode(disk, supers, i).Ok? && 0 <= i.num < 0x1_0000 && 0 <= j.num < 0x1_0000
    requires i.dev != j.dev || i.num != j.num
    ensures ReadInode(WriteInode(disk, supers, i).value.0, supers, j) == ReadInode(disk, supers, j)
  {
    if i.dirt && i.dev != 0 && i.dev == j.dev {
      LocationInjective(supers[i.dev], i.num, j.num);
      var (b, s) := Location(supers[i.dev], i.num);
      var (b', s') := Location(supers[j.dev], j.num);
      if b == b' {
        assert s != s';
      }
    }
  }

  /** An inode slot as the table keeps it: nine 16-bit zones, a 16-bit
      inode number, a reference count and no lock held. */
  predicate InodeOk(i: MInode)
  {
    ZonesOk(i.zone) && 0 <= i.num < 0x1_0000 && 0 <= i.count && !i.lock
  }

  /** The j-th slot get_empty_inode visits when last_inode was `last`. */
  function Visit(last: int, j: int): int
  {
    (last + 1 + j) % NR_INODE
  }

  predicate FreeSlot(s: seq<MInode>, k: int)
    requires 0 <= k < |s|
  {
    s[k].count == 0
  }

  predicate FreeClean(s: seq<MInode>, k: int)
    requires 0 <= k < |s|
  {
    s[k].count == 0 && !s[k].dirt && !s[k].lock
  }

  /** The first n steps of get_empty_inode's scan from last_inode: whether
      a free clean slot was met (the scan stops there), and the last free
      slot met (-1 for none). */
  function Scan(s: seq<MInode>, last: int, n: int): (r: (bool, int))
    requires |s| == NR_INODE && 0 <= last < NR_INODE && 0 <= n <= NR_INODE
    ensures -1 <= r.1 < NR_INODE && (r.1 != -1 ==> FreeSlot(s, r.1)) && (r.0 ==> r.1 != -1 && FreeClean(s, r.1))
  {
    if n == 0 then (false, -1)
    else
      var (found, cand) := Scan(s, last, n - 1);
      var k := Visit(last, n - 1);
      if found || s[k].count != 0 then (found, cand)
      else (!s[k].dirt && !s[k].lock, k)
  }

  /** Once the scan has stopped, further steps change nothing. */
  lemma {:induction false} ScanStays(s: seq<MInode>, last: int, n: int, m: int)
    requires |s| == NR_INODE && 0 <= last < NR_INODE && 0 <= n <= m <= NR_INODE
    requires Scan(s, last, n).0
    ensures Scan(s, last, m) == Scan(s, last, n)
    decreases m
  {
    if m > n {
      ScanStays(s, last, n, m - 1);
    }
  }

  /** The scan finds the first free clean slot in visiting order; when
      there is none, it keeps the last free slot visited. */
  lemma {:induction false} ScanMeans(s: seq<MInode>, last: int, n: int)
    requires |s| == NR_INODE && 0 <= last < NR_INODE && 0 <= n <= NR_INODE
    ensures Scan(s, last, n).0 ==>
      exists j :: (0 <= j < n && Scan(s, last, n).1 == Visit(last, j) &&
                   forall j' :: 0 <= j' < j ==> !FreeClean(s, Visit(last, j')))
    ensures !Scan(s, last, n).0 ==> forall j :: 0 <= j < n ==> !FreeClean(s, Visit(last, j))
    ensures !Scan(s, last, n).0 && Scan(s, last, n).1 == -1 ==> forall j :: 0 <= j < n ==> !FreeSlot(s, Visit(last, j))
    ensures !Scan(s, last, n).0 && Scan(s, last, n).1 != -1 ==>
      exists j :: 0 <= j < n && Scan(s, last, n).1 == Visit(last, j) &&
        forall j' :: j < j' < n ==> !FreeSlot(s, Visit(last, j'))
  {
    if n > 0 {
      ScanMeans(s, last, n - 1);
      var (f, c) := Scan(s, last, n - 1);
      if !f && s[Visit(last, n - 1)].count == 0 {
        assert Scan(s, last, n).1 == Visit(last, n - 1);
      }
    }
  }

  /** One more step of last_inode, wrapping at the end of the table. */
  lemma VisitNext(last: int, i: int)
    requires 0 <= last < NR_INODE && 0 <= i < NR_INODE
    ensures (if (last + i) % NR_INODE + 1 >= NR_INODE then 0 else (last + i) % NR_INODE + 1) == Visit(last, i)
  {
    if last + i >= NR_INODE {
      assert (last + i) % NR_INODE == last + i - NR_INODE;
      assert Visit(last, i) == last + i + 1 - NR_INODE;
    } else if last + i + 1 == NR_INODE {
      assert Visit(last, i) == 0;
    }
  }

  /** Every slot is visited by the cyclic scan. */
  lemma VisitOnto(last: int, k: int)
    requires 0 <= last < NR_INODE && 0 <= k < NR_INODE
    ensures Visit(last, (k - last - 1) % NR_INODE) == k
  {
  }

  /** The whole scan comes back empty-handed exactly when no slot is free. */
  lemma ScanNone(s: seq<MInode>, last: int)
    requires |s| == NR_INODE && 0 <= last < NR_INODE
    ensures Scan(s, last, NR_INODE).1 == -1 <==> forall k :: 0 <= k < NR_INODE ==> !FreeSlot(s, k)
  {
    ScanMeans(s, last, NR_INODE);
    if Scan(s, last, NR_INODE).1 == -1 {
      forall k | 0 <= k < NR_INODE
        ensures !FreeSlot(s, k)
      {
        VisitOnto(last, k);
      }
    }
  }

  /** What invalidate_inodes does to one inode. */
  function Invalidated(i: MInode, dev: int): MInode
  {
    if i.dev == dev then i.(dev := 0, dirt := false) else i
  }

  /** After invalidate_inodes no inode is of the device any more, inodes of
      other devices are untouched and no reference count changes. */
  lemma InvalidatedLeavesNone(i: MInode, dev: int)
    requires dev != 0
    ensures Invalidated(i, dev).dev != dev && Invalidated(i, dev).count == i.count
    ensures i.dev != dev ==> Invalidated(i, dev) == i
  {
  }

  /** sync_inodes over slots 0 .. n - 1, in order: each dirty inode that is
      not a pipe is written. */
  function SyncUpTo(disk: Disk, s: seq<MInode>, supers: map<int, Geometry>, n: int): (r: Result<(Disk, seq<MInode>)>)
    requires 0 <= n <= |s|
    ensures r.Ok? ==> |r.value.1| == |s|
  {
    if n == 0 then Ok((disk, s))
    else match SyncUpTo(disk, s, supers, n - 1)
      case Fail(m) => Fail(m)
      case Ok((d, t)) =>
        if t[n - 1].dirt && !t[n - 1].pipe then
          match WriteInode(d, supers, t[n - 1])
          case Fail(m) => Fail(m)
          case Ok((d', i')) => Ok((d', t[n - 1 := i']))
        else Ok((d, t))
  }

  /** After a sync that does not panic, no inode with a device that is not a
      pipe is dirty any more among the slots synced, and only their dirty
      flags change. */
  lemma {:induction false} SyncCleans(disk: Disk, s: seq<MInode>, supers: map<int, Geometry>, n: int)
    requires 0 <= n <= |s| && SyncUpTo(disk, s, supers, n).Ok?
    ensures forall k :: 0 <= k < n ==> var t := SyncUpTo(disk, s, supers, n).value.1;
      !(t[k].dirt && !t[k].pipe && t[k].dev != 0) && t[k] == s[k].(dirt := t[k].dirt)
    ensures forall k :: n <= k < |s| ==> SyncUpTo(disk, s, supers, n).value.1[k] == s[k]
  {
    if n > 0 {
      SyncCleans(disk, s, supers, n - 1);
    }
  }

  /** What iput asks of the rest of the kernel besides the table:
      free_page of a pipe's page, or sync_dev of a block device. */
  datatype Effect = NoEffect | FreePage(addr: int) | SyncDev(dev: int)

  /** iput of an inode that keeps a reference, or of a pipe or device-less
      inode: one reference fewer, and a pipe whose last reference goes is
      cleared of its pipe and dirty flags. */
  function Dropped(i: MInode): (r: MInode)
    requires i.count > 0
    ensures r.count == i.count - 1
    ensures r.mode == i.mode && r.zone == i.zone && r.dev == i.dev && r.num == i.num && r.size == i.size
    ensures r.pipe <==> i.pipe && i.count > 1
  {
    if i.pipe && i.count == 1 then i.(count := 0, dirt := false, pipe := false)
    else i.(count := i.count - 1)
  }

  /** The inode get_pipe_inode hands out: both ends open, the page address
      in i_size, head and tail at the start of the page. */
  function PipeInode(page: int): (r: MInode)
    ensures r.count == 2 && r.pipe && r.size == page
    ensures |r.zone| == 9 && PipeIndex(r.zone[0]) && PipeIndex(r.zone[1]) && PipeEmpty(r.zone[0], r.zone[1]) && PipeSize(r.zone[0], r.zone[1]) == 0
  {
    EmptyInode.(count := 2, size := page, pipe := true)
  }

  /** The inode new_inode hands out. */
  function NewInodeOf(dev: int, num: int, euid: int, egid: int, now: int): MInode
  {
    EmptyInode.(count := 1, nlinks := 1, dev := dev, uid := euid, gid := egid, dirt := true, num := num,
                mtime := now, atime := now, ctime := now)
  }

  /** inode_table[NR_INODE], get_empty_inode's static last_inode (as a slot
      index) and the inode blocks on disk. */
  class Table {
    var inodes: seq<MInode>
    var last: int
    var disk: Disk

    ghost predicate Valid()
      reads this
    {
      |inodes| == NR_INODE && 0 <= last < NR_INODE &&
      forall k :: 0 <= k < NR_INODE ==> InodeOk(inodes[k])
    }

    /** The table at boot: every slot zero, last_inode at slot 0. */
    constructor Init(d: Disk)
      ensures Valid() && inodes == seq(NR_INODE, _ => EmptyInode) && last == 0 && disk == d
    {
      inodes := seq(NR_INODE, _ => EmptyInode);
      last := 0;
      disk := d;
    }

    /** invalidate_inodes(dev): every inode of dev loses its device and its
      dirty flag (one still in use is only reported). */
    method InvalidateInodes(dev: int)
      requires Valid()
      modifies this
      ensures Valid() && last == old(last) && disk == old(disk)
      ensures forall k :: 0 <= k < NR_INODE ==> inodes[k] == Invalidated(old(inodes[k]), dev)
    {
      var i := 0;
      while i < NR_INODE
        invariant 0 <= i <= NR_INODE && Valid() && last == old(last) && disk == old(disk)
        invariant forall k :: 0 <= k < i ==> inodes[k] == Invalidated(old(inodes[k]), dev)
        invariant forall k :: i <= k < NR_INODE ==> inodes[k] == old(inodes[k])
      {
        if inodes[i].dev == dev {
          inodes := inodes[i := inodes[i].(dev := 0, dirt := false)];
        }
        i := i + 1;
      }
    }

    /** sync_inodes: write every dirty inode that is not a pipe, in table
      order; a write that panics ends the call. */
    method SyncInodes(supers: map<int, Geometry>) returns (st: Status)
      requires Valid()
      modifies this
      ensures Valid() && last == old(last)
      ensures SyncUpTo(old(disk), old(inodes), supers, NR_INODE).Ok? ==>
        st == Done && (disk, inodes) == SyncUpTo(old(disk), old(inodes), supers, NR_INODE).value
      ensures SyncUpTo(old(disk), old(inodes), supers, NR_INODE).Fail? ==>
        st == Panic(SyncUpTo(old(disk), old(inodes), supers, NR_INODE).msg)
    {
      var i := 0;
      while i < NR_INODE
        invariant 0 <= i <= NR_INODE && Valid() && last == old(last)
        invariant SyncUpTo(old(disk), old(inodes), supers, i) == Ok((disk, inodes))
      {
        if inodes[i].dirt && !inodes[i].pipe {
          match WriteInode(disk, supers, inodes[i])
          case Fail(m) =>
            FailStays(old(disk), old(inodes), supers, i + 1, NR_INODE);
            return Panic(m);
          case Ok((d, ino)) =>
            disk, inodes := d, inodes[i := ino];
        }
        i := i + 1;
      }
      st := Done;
    }

    /** The scan of get_empty_inode: NR_INODE steps of last_inode, cyclically,
      remembering each free slot and stopping at the first free clean
      one. last_inode stays where the scan stopped. */
    method Choose() returns (found: bool, cand: int)
      requires Valid()
      modifies this
      ensures Valid() && inodes == old(inodes) && disk == old(disk)
      ensures (found, cand) == Scan(inodes, old(last), NR_INODE)
      ensures found ==> last == cand
      ensures !found ==> last == old(last)
    {
      ghost var last0 := last;
      found, cand := false, -1;
      var i := 0;
      while i < NR_INODE && !found
        invariant 0 <= i <= NR_INODE && Valid() && inodes == old(inodes) && disk == old(disk)
        invariant (found, cand) == Scan(inodes, last0, i)
        invariant last == (last0 + i) % NR_INODE
        invariant found ==> last == cand
      {
        VisitNext(last0, i);
        last := if last + 1 >= NR_INODE then 0 else last + 1;
        if inodes[last].count == 0 {
          found, cand := !inodes[last].dirt && !inodes[last].lock, last;
        }
        i := i + 1;
      }
      if found {
        ScanStays(inodes, last0, i, NR_INODE);
      }
    }

    /** get_empty_inode: the chosen free slot, written back first if dirty,
      becomes an all-zero inode with i_count 1. No free slot panics; a
      dirty free inode without a device can never be written back, so the
      loop waiting for it to become clean never ends. */
    method GetEmptyInode(supers: map<int, Geometry>) returns (st: Status, idx: int)
      requires Valid()
      modifies this
      ensures Valid()
      ensures (st == Panic("No free inodes in mem")) <==> forall k :: 0 <= k < NR_INODE ==> !FreeSlot(old(inodes), k)
      ensures st == Done ==>
        0 <= idx < NR_INODE && idx == Scan(old(inodes), old(last), NR_INODE).1 &&
        inodes == old(inodes)[idx := EmptyInode.(count := 1)] &&
        (old(inodes[idx].dirt) ==> WriteInode(old(disk), supers, old(inodes[idx])).Ok? &&
                                   disk == WriteInode(old(disk), supers, old(inodes[idx])).value.0) &&
        (!old(inodes[idx].dirt) ==> disk == old(disk))
      ensures st == Spins ==> 0 <= idx < NR_INODE && old(inodes[idx].dirt) && old(inodes[idx].dev) == 0
    {
      var found;
      found, idx := Choose();
      ScanNone(inodes, old(last));
      if idx == -1 {
        return Panic("No free inodes in mem"), idx;
      }
      if inodes[idx].dirt {
        if inodes[idx].dev == 0 {
          return Spins, idx;
        }
        match WriteInode(disk, supers, inodes[idx])
        case Fail(m) =>
          assert m != "No free inodes in mem";
          return Panic(m), idx;
        case Ok((d, _)) =>
          disk := d;
      }
      inodes := inodes[idx := EmptyInode.(count := 1)];
      st := Done;
    }

    /** get_pipe_inode, given what get_free_page returned: no page gives
      the slot back and no inode. */
    method GetPipeInode(supers: map<int, Geometry>, page: int) returns (st: Status, idx: int)
      requires Valid()
      modifies this
      ensures Valid()
      ensures (st == Panic("No free inodes in mem")) <==> forall k :: 0 <= k < NR_INODE ==> !FreeSlot(old(inodes), k)
      ensures st == Done ==> var k := Scan(old(inodes), old(last), NR_INODE).1;
        0 <= k < NR_INODE &&
        (page == 0 ==> idx == -1 && inodes == old(inodes)[k := EmptyInode]) &&
        (page != 0 ==> idx == k && inodes == old(inodes)[k := PipeInode(page)])
    {
      st, idx := GetEmptyInode(supers);
      if st != Done {
        return;
      }
      if page == 0 {
        inodes := inodes[idx := inodes[idx].(count := 0)];
        return Done, -1;
      }
      assert inodes[idx].zone[0 := 0][1 := 0] == EmptyInode.zone;
      inodes := inodes[idx := inodes[idx].(size := page, count := 2, zone := inodes[idx].zone[0 := 0][1 := 0], pipe := true)];
    }

    /** The end of iput for the last reference to an unlinked inode on a
      device: truncate, then free_inode on the volume v of its device. */
    method ReleaseUnlinked(idx: int, v: Volume, supers: map<int, Geometry>, now: int) returns (st: Status, ghost calls: seq<int>)
      requires Valid() && v.Valid() && 0 <= idx < NR_INODE
      requires inodes[idx].count == 1 && !inodes[idx].pipe && inodes[idx].dev != 0 && inodes[idx].nlinks == 0
      modifies this, v
      ensures Valid() && v.Valid() && last == old(last) && disk == old(disk)
      ensures st != Done ==> inodes == old(inodes)
      ensures old(inodes[idx].dev) !in supers ==> st != Done
      ensures st == Done ==>
        inodes == old(inodes)[idx := EmptyInode] &&
        calls == (if IsReg(old(inodes[idx].mode)) || IsDir(old(inodes[idx].mode))
                  then TruncFrees(Contents(old(v.cached)), old(inodes[idx].zone)) else []) &&
        1 <= old(inodes[idx].num) <= v.ninodes && Present(old(v.inodeMap), old(inodes[idx].num)) &&
        v.inodeMap == Put(old(v.inodeMap), old(inodes[idx].num), false)
    {
      var r;
      st, r, calls := Truncate.Truncate(v, inodes[idx], now);
      if st != Done {
        return;
      }
      if r.dev !in supers {
        return Panic("trying to free inode on nonexistent device"), calls;
      }
      var wasClear;
      st, wasClear := v.FreeInodeBit(r.num);
      if st != Done {
        return;
      }
      inodes := inodes[idx := EmptyInode];
    }

    /** The end of iput for the last reference to a linked inode on a
      device: written back if dirty, then its count drops to zero. */
    method ReleaseLinked(idx: int, supers: map<int, Geometry>) returns (st: Status)
      requires Valid() && 0 <= idx < NR_INODE
      requires inodes[idx].count == 1 && !inodes[idx].pipe && inodes[idx].dev != 0 && inodes[idx].nlinks != 0
      modifies this
      ensures Valid() && last == old(last)
      ensures var w := WriteInode(old(disk), supers, old(inodes[idx]));
        (w.Fail? ==> st == Panic(w.msg) && disk == old(disk) && inodes == old(inodes)) &&
        (w.Ok? ==> st == Done && disk == w.value.0 && inodes == old(inodes)[idx := old(inodes[idx]).(count := 0, dirt := false)])
    {
      var i := inodes[idx];
      if i.dirt {
        match WriteInode(disk, supers, i)
        case Fail(m) =>
          return Panic(m);
        case Ok((d, i')) =>
          disk, i := d, i';
      }
      inodes := inodes[idx := i.(count := 0)];
      st := Done;
    }

    /** iput(inode) for the slot idx (-1 for NULL). fx is the free_page or
      sync_dev the call makes; calls are the blocks truncate frees. */
    method Iput(idx: int, v: Volume, supers: map<int, Geometry>, now: int) returns (st: Status, fx: Effect, ghost calls: seq<int>)
      requires Valid() && v.Valid() && -1 <= idx < NR_INODE
      modifies this, v
      ensures Valid() && v.Valid() && last == old(last)
      ensures idx == -1 ==> st == Done && fx == NoEffect && inodes == old(inodes) && disk == old(disk)
      ensures idx != -1 && old(inodes[idx].count) == 0 ==>
        st == Panic("iput: trying to free free inode") && fx == NoEffect && inodes == old(inodes) && disk == old(disk)
      ensures idx != -1 && old(inodes[idx].count) != 0 ==>
        fx == (if old(inodes[idx].pipe) then (if old(inodes[idx].count) == 1 then FreePage(old(inodes[idx].size)) else NoEffect)
               else if old(inodes[idx].dev) != 0 && IsBlk(old(inodes[idx].mode)) then SyncDev(old(inodes[idx].zone[0]))
               else NoEffect)
      ensures idx != -1 && old(inodes[idx].count) != 0 &&
              (old(inodes[idx].pipe) || old(inodes[idx].dev) == 0 || old(inodes[idx].count) > 1) ==>
        st == Done && disk == old(disk) && inodes == old(inodes)[idx := Dropped(old(inodes[idx]))] && calls == [] &&
        v.zoneMap == old(v.zoneMap) && v.inodeMap == old(v.inodeMap) && v.cached == old(v.cached)
      ensures idx != -1 && old(inodes[idx].count) == 1 && !old(inodes[idx].pipe) && old(inodes[idx].dev) != 0 && st == Done ==>
        if old(inodes[idx].nlinks) == 0 then
          inodes == old(inodes)[idx := EmptyInode] && disk == old(disk) &&
          Present(old(v.inodeMap), old(inodes[idx].num)) &&
          v.inodeMap == Put(old(v.inodeMap), old(inodes[idx].num), false) &&
          calls == (if IsReg(old(inodes[idx].mode)) || IsDir(old(inodes[idx].mode))
                    then TruncFrees(Contents(old(v.cached)), old(inodes[idx].zone)) else [])
        else
          inodes == old(inodes)[idx := old(inodes[idx]).(count := 0, dirt := false)] &&
          WriteInode(old(disk), supers, old(inodes[idx])).Ok? &&
          disk == WriteInode(old(disk), supers, old(inodes[idx])).value.0
    {
      fx, calls := NoEffect, [];
      if idx == -1 {
        return Done, fx, calls;
      }
      var i := inodes[idx];
      if i.count == 0 {
        return Panic("iput: trying to free free inode"), fx, calls;
      }
      if i.pipe {
        inodes := inodes[idx := i.(count := i.count - 1)];
        if i.count - 1 != 0 {
          return Done, fx, calls;
        }
        inodes := inodes[idx := i.(count := 0, dirt := false, pipe := false)];
        return Done, FreePage(i.size), calls;
      }
      if i.dev == 0 {
        inodes := inodes[idx := i.(count := i.count - 1)];
        return Done, fx, calls;
      }
      if IsBlk(i.mode) {
        fx := SyncDev(i.zone[0]);
      }
      if i.count > 1 {
        inodes := inodes[idx := i.(count := i.count - 1)];
        return Done, fx, calls;
      }
      if i.nlinks == 0 {
        st, calls := ReleaseUnlinked(idx, v, supers, now);
      } else {
        st := ReleaseLinked(idx, supers);
      }
    }

    /** new_inode(dev) with the volume v of dev and the caller's euid and
      egid: a fresh slot gets the first clear bit of the inode map; when
      none is usable the slot is put back (by iput) and there is no inode. */
    method NewInode(dev: int, v: Volume, supers: map<int, Geometry>, euid: int, egid: int, now: int)
      returns (st: Status, idx: int)
      requires Valid() && v.Valid()
      modifies this, v
      ensures Valid() && v.Valid()
      ensures v.zoneMap == old(v.zoneMap) && v.cached == old(v.cached)
      ensures (st == Panic("No free inodes in mem")) <==> forall k :: 0 <= k < NR_INODE ==> !FreeSlot(old(inodes), k)
      ensures dev !in supers && (exists k :: 0 <= k < NR_INODE && FreeSlot(old(inodes), k)) ==>
        st != Done
      ensures st == Done ==> var k := Scan(old(inodes), old(last), NR_INODE).1;
        0 <= k < NR_INODE && dev in supers &&
        (idx == -1 ==> inodes == old(inodes)[k := EmptyInode] && v.inodeMap == old(v.inodeMap) &&
                       (NoneClear(old(v.inodeMap)) || exists n :: FirstClear(old(v.inodeMap), n) && n > v.ninodes)) &&
        (idx != -1 ==> idx == k &&
                       exists n :: (1 <= n <= v.ninodes && FirstClear(old(v.inodeMap), n) &&
                                    v.inodeMap == Put(old(v.inodeMap), n, true) &&
                                    inodes == old(inodes)[k := NewInodeOf(dev, n, euid, egid, now)]))
    {
      st, idx := GetEmptyInode(supers);
      if st != Done {
        return;
      }
      if dev !in supers {
        return Panic("new_inode with unknown device"), idx;
      }
      var ok, num := v.NewInodeBit();
      if !ok {
        var fx;
        ghost var calls;
        st, fx, calls := Iput(idx, v, supers, now);
        return st, -1;
      }
      inodes := inodes[idx := NewInodeOf(dev, num, euid, egid, now)];
    }
  }

  /** A sync that panics before slot n still panics at slot m >= n. */
  lemma {:induction false} FailStays(disk: Disk, s: seq<MInode>, supers: map<int, Geometry>, n: int, m: int)
    requires 0 <= n <= m <= |s| && SyncUpTo(disk, s, supers, n).Fail?
    ensures SyncUpTo(disk, s, supers, m) == SyncUpTo(disk, s, supers, n)
    decreases m
  {
    if m > n {
      FailStays(disk, s, supers, n, m - 1);
    }
  }
}
