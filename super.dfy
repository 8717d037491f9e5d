/** The super-block table (fs/super.c): get_super, put_super, read_super
    and the checks of sys_mount and sys_umount. A bitmap buffer is shown by
    its bits, as in the allocators; the buffer reference counts that
    bread and brelse move for those blocks are not shown. The inodes that
    namei finds are passed in, and the iput and sync_dev calls the system
    calls make are returned to the caller. No other task runs: a super
    block is never found locked. */
module Super {
  import opened Util
  import opened FsDefs
  import opened Bitmap
  import opened Errno

  /** struct d_super_block, as read_super copies it out of block 1. */
  datatype DSuper = DSuper(ninodes: int, nzones: int, imapBlocks: int, zmapBlocks: int,
                           firstDataZone: int, logZoneSize: int, maxSize: int, magic: int)

  /** One entry of super_block[]. s_imount and s_isup name slots of the
      inode table, -1 standing for NULL. */
  datatype Sb = Sb(dev: int, d: DSuper, imaps: seq<Option<MapBlock>>, zmaps: seq<Option<MapBlock>>,
                   imount: int, isup: int, time: int, rdOnly: bool, dirt: bool)

  /** Eight NULL bitmap slots. */
  const NoMaps: seq<Option<MapBlock>> := [None, None, None, None, None, None, None, None]

  const EmptySb: Sb := Sb(0, DSuper(0, 0, 0, 0, 0, 0, 0, 0), NoMaps, NoMaps, -1, -1, 0, false, false)

  /** A block device as read_super sees it: the super block in block 1
      (None when bread fails) and, by block number, the bits of the blocks
      that bread can read. */
  datatype Device = Device(block1: Option<DSuper>, maps: map<int, seq<bool>>)

  /** Every bitmap block holds 8192 bits, and the block counts of the
      super block are unsigned shorts. */
  predicate DeviceOk(dv: Device)
  {
    (forall b :: b in dv.maps ==> |dv.maps[b]| == BITS) &&
    (dv.block1.Some? ==> 0 <= dv.block1.value.imapBlocks < 0x1_0000 && 0 <= dv.block1.value.zmapBlocks < 0x1_0000)
  }

  /** bread succeeds on every block from lo up to hi. */
  predicate Readable(dv: Device, lo: int, hi: int)
  {
    forall b :: lo <= b < hi ==> b in dv.maps
  }

  /** The number of blocks from start on, at most n, that bread reads
      before the first failure. */
  function Run(dv: Device, start: int, n: int): (k: int)
    ensures 0 <= k && (n >= 0 ==> k <= n) && (n <= 0 ==> k == 0)
    ensures Readable(dv, start, start + k)
    ensures k < n ==> start + k !in dv.maps
    decreases n
  {
    if n <= 0 || start !in dv.maps then 0 else 1 + Run(dv, start + 1, n - 1)
  }

  /** Eight bitmap slots, the first k filled from the blocks start, start + 1, ... */
  function Loaded(dv: Device, start: int, k: int): (m: seq<Option<MapBlock>>)
    requires DeviceOk(dv) && 0 <= k <= 8 && Readable(dv, start, start + k)
    ensures MapOk(m)
    ensures forall j :: 0 <= j < 8 ==> (m[j].Some? <==> j < k)
    ensures forall j :: 0 <= j < k ==> m[j].value == MapBlock(dv.maps[start + j], false)
  {
    seq(8, j requires 0 <= j < 8 => if j < k then Some(MapBlock(dv.maps[start + j], false)) else None)
  }

  /** One more block read by read_super's loop: the run goes on and the
      slot fills. */
  lemma ReadStep(dv: Device, start: int, n: int, i: int, next: int, m: seq<Option<MapBlock>>)
    requires DeviceOk(dv) && 0 <= i < n <= 8 && next == start + i
    requires Readable(dv, start, next) && next in dv.maps && m == Loaded(dv, start, i)
    requires Run(dv, start, n) == i + Run(dv, next, n - i)
    ensures Readable(dv, start, next + 1) && Run(dv, start, n) == i + 1 + Run(dv, next + 1, n - i - 1)
    ensures m[i := Some(MapBlock(dv.maps[next], false))] == Loaded(dv, start, i + 1)
  {
  }

  /** No two slots of the table hold the same device. */
  predicate Distinct(s: seq<Sb>)
  {
    forall j, k :: 0 <= j < k < |s| && s[j].dev != 0 ==> s[j].dev != s[k].dev
  }

  /** The first slot with s_dev 0, or -1. */
  function FirstFree(s: seq<Sb>): (r: int)
    ensures -1 <= r < |s|
    ensures r == -1 <==> forall k :: 0 <= k < |s| ==> s[k].dev != 0
    ensures r != -1 ==> s[r].dev == 0 && forall k :: 0 <= k < r ==> s[k].dev != 0
  {
    if |s| == 0 then -1
    else if s[0].dev == 0 then 0
    else var r := FirstFree(s[1..]); if r == -1 then -1 else r + 1
  }

  /** What read_super ran into when the device is inconsistent with the
      table's fixed size: a bitmap count above eight with the first eight
      blocks read stores a ninth slot past s_imap[] or s_zmap[] (the model
      stops there), and a count of 0 leaves slot 0 NULL when bit 0 is
      forced. */
  datatype Fault = NoFault | MapOverrun | NullMap

  /** What read_super's bitmap loops make of the device: the fault met,
      whether every bitmap block was read, and the slots as left. */
  datatype Load = Load(fault: Fault, ok: bool, imaps: seq<Option<MapBlock>>, zmaps: seq<Option<MapBlock>>)

  /** The inode maps are read from block 2 on, the zone maps from the block
      after the last inode map read; all of them must be read, and then bit
      0 of both first blocks is forced to 1. */
  function LoadOf(dv: Device, d: DSuper): (l: Load)
    requires DeviceOk(dv) && 0 <= d.imapBlocks && 0 <= d.zmapBlocks
    ensures MapOk(l.imaps) && MapOk(l.zmaps)
  {
    var ki := Run(dv, 2, Min(d.imapBlocks, I_MAP_SLOTS));
    LoadAfter(dv, d, ki, Run(dv, 2 + ki, Min(d.zmapBlocks, Z_MAP_SLOTS)))
  }

  /** LoadOf once the loops have read ki inode map and kz zone map blocks. */
  function LoadAfter(dv: Device, d: DSuper, ki: int, kz: int): (l: Load)
    requires DeviceOk(dv) && 0 <= ki <= 8 && 0 <= kz <= 8
    requires Readable(dv, 2, 2 + ki) && Readable(dv, 2 + ki, 2 + ki + kz)
    ensures MapOk(l.imaps) && MapOk(l.zmaps)
  {
    Outcome(d, ki, kz, Loaded(dv, 2, ki), Loaded(dv, 2 + ki, kz))
  }

  /** The end of read_super's loops: ki inode map blocks and kz zone map
      blocks were read into imaps and zmaps. */
  function Outcome(d: DSuper, ki: int, kz: int, imaps: seq<Option<MapBlock>>, zmaps: seq<Option<MapBlock>>): (l: Load)
    requires MapOk(imaps) && MapOk(zmaps)
    ensures MapOk(l.imaps) && MapOk(l.zmaps)
  {
    if d.imapBlocks > I_MAP_SLOTS && ki == I_MAP_SLOTS then Load(MapOverrun, false, imaps, NoMaps)
    else if d.zmapBlocks > Z_MAP_SLOTS && kz == Z_MAP_SLOTS then Load(MapOverrun, false, imaps, zmaps)
    else if ki + kz != d.imapBlocks + d.zmapBlocks then Load(NoFault, false, imaps, zmaps)
    else Load(if imaps[0].None? || zmaps[0].None? then NullMap else NoFault, true, ForceBit0(imaps), ForceBit0(zmaps))
  }

  lemma LoadOfIs(dv: Device, d: DSuper, ki: int, kz: int)
    requires DeviceOk(dv) && 0 <= d.imapBlocks && 0 <= d.zmapBlocks
    requires Run(dv, 2, Min(d.imapBlocks, I_MAP_SLOTS)) == ki && Run(dv, 2 + ki, Min(d.zmapBlocks, Z_MAP_SLOTS)) == kz
    ensures LoadOf(dv, d) == LoadAfter(dv, d, ki, kz)
  {
  }

  /** A load succeeds exactly when all s_imap_blocks + s_zmap_blocks
      blocks from block 2 on can be read and both counts are at most
      eight; the maps then hold those blocks in order (the zone maps right
      after the inode maps), with bit 0 of each first block forced. */
  lemma LoadOkMeans(dv: Device, d: DSuper)
    requires DeviceOk(dv) && 0 <= d.imapBlocks && 0 <= d.zmapBlocks
    ensures LoadOf(dv, d).ok <==>
      d.imapBlocks <= I_MAP_SLOTS && d.zmapBlocks <= Z_MAP_SLOTS &&
      Readable(dv, 2, 2 + d.imapBlocks + d.zmapBlocks)
    ensures LoadOf(dv, d).ok ==>
      LoadOf(dv, d).imaps == ForceBit0(Loaded(dv, 2, d.imapBlocks)) &&
      LoadOf(dv, d).zmaps == ForceBit0(Loaded(dv, 2 + d.imapBlocks, d.zmapBlocks))
  {
    var ki := Run(dv, 2, Min(d.imapBlocks, I_MAP_SLOTS));
    var kz := Run(dv, 2 + ki, Min(d.zmapBlocks, Z_MAP_SLOTS));
    LoadOfIs(dv, d, ki, kz);
    OutcomeOk(d, ki, kz, Loaded(dv, 2, ki), Loaded(dv, 2 + ki, kz));
    if d.imapBlocks <= I_MAP_SLOTS && d.zmapBlocks <= Z_MAP_SLOTS &&
       Readable(dv, 2, 2 + d.imapBlocks + d.zmapBlocks) {
      RunAll(dv, 2, d.imapBlocks);
      RunAll(dv, 2 + d.imapBlocks, d.zmapBlocks);
    }
  }

  /** Outcome reports success exactly when all the blocks asked for were
      read, and then hands over the maps with bit 0 forced. */
  lemma OutcomeOk(d: DSuper, ki: int, kz: int, imaps: seq<Option<MapBlock>>, zmaps: seq<Option<MapBlock>>)
    requires MapOk(imaps) && MapOk(zmaps)
    requires 0 <= ki <= d.imapBlocks && ki <= I_MAP_SLOTS && 0 <= kz <= d.zmapBlocks && kz <= Z_MAP_SLOTS
    ensures Outcome(d, ki, kz, imaps, zmaps).ok <==> ki == d.imapBlocks && kz == d.zmapBlocks
    ensures Outcome(d, ki, kz, imaps, zmaps).ok ==>
      Outcome(d, ki, kz, imaps, zmaps).imaps == ForceBit0(imaps) && Outcome(d, ki, kz, imaps, zmaps).zmaps == ForceBit0(zmaps)
  {
  }

  /** Run counts every block when all of them can be read. */
  lemma {:induction false} RunAll(dv: Device, start: int, n: int)
    requires 0 <= n && Readable(dv, start, start + n)
    ensures Run(dv, start, n) == n
    decreases n
  {
    if n > 0 {
      RunAll(dv, start + 1, n - 1);
    }
  }

  /** read_super's effect once slot f is the first free one and dev is not
      in the table: only slot f changes; an unreadable block 1, a bad magic
      or a bitmap block that cannot be read leaves f free again; otherwise f
      holds dev, its super block and the loaded maps. */
  ghost predicate Filled(s: seq<Sb>, s': seq<Sb>, f: int, dev: int, dv: Device, r: int, fault: Fault)
    requires |s| == |s'| == NR_SUPER && 0 <= f < NR_SUPER && DeviceOk(dv)
  {
    (forall k :: 0 <= k < NR_SUPER && k != f ==> s'[k] == s[k]) &&
    if dv.block1.None? || dv.block1.value.magic != SUPER_MAGIC then
      r == -1 && fault == NoFault && s'[f].dev == 0
    else
      var l := LoadOf(dv, dv.block1.value);
      fault == l.fault &&
      (l.ok ==> r == f && s'[f] == Sb(dev, dv.block1.value, l.imaps, l.zmaps, -1, -1, 0, false, false)) &&
      (!l.ok ==> r == -1 && (fault == NoFault ==> s'[f].dev == 0))
  }

  class Table {
    var sbs: seq<Sb>
    const rootDev: int

    ghost predicate Valid()
      reads this
    {
      |sbs| == NR_SUPER && Distinct(sbs) &&
      forall k :: 0 <= k < NR_SUPER ==> MapOk(sbs[k].imaps) && MapOk(sbs[k].zmaps)
    }

    /** The table as mount_root leaves it before reading the root device:
      every slot free and unlocked. */
    constructor Init(root: int)
      ensures Valid() && rootDev == root && sbs == seq(NR_SUPER, _ => EmptySb)
    {
      rootDev := root;
      sbs := seq(NR_SUPER, _ => EmptySb);
    }

    /** get_super(dev): the slot holding dev, or -1 for dev 0 or a device
      not in the table. */
    method GetSuper(dev: int) returns (r: int)
      requires Valid()
      ensures -1 <= r < NR_SUPER
      ensures r == -1 <==> dev == 0 || forall k :: 0 <= k < NR_SUPER ==> sbs[k].dev != dev
      ensures r != -1 ==> sbs[r].dev == dev
    {
      if dev == 0 {
        return -1;
      }
      r := 0;
      while r < NR_SUPER
        invariant 0 <= r <= NR_SUPER
        invariant forall k :: 0 <= k < r ==> sbs[k].dev != dev
      {
        if sbs[r].dev == dev {
          return;
        }
        r := r + 1;
      }
      r := -1;
    }

    /** put_super(dev): the root device and a mounted super block are
      refused (only reported); otherwise the slot of dev, if any, is freed.
      The bitmap slots are left as they were. */
    method PutSuper(dev: int)
      requires Valid()
      modifies this
      ensures Valid()
      ensures dev == rootDev || dev == 0 || (forall k :: 0 <= k < NR_SUPER ==> old(sbs[k]).dev != dev) ==>
        sbs == old(sbs)
      ensures forall k :: 0 <= k < NR_SUPER && old(sbs[k]).dev == dev && dev != 0 && dev != rootDev ==>
        sbs == old(sbs)[k := if old(sbs[k]).imount != -1 then old(sbs[k]) else old(sbs[k]).(dev := 0)]
      ensures dev != 0 && dev != rootDev && (forall k :: 0 <= k < NR_SUPER && old(sbs[k]).dev == dev ==> old(sbs[k]).imount == -1) ==>
        forall k :: 0 <= k < NR_SUPER ==> sbs[k].dev != dev
    {
      if dev == rootDev {
        return;
      }
      var k := GetSuper(dev);
      if k == -1 || sbs[k].imount != -1 {
        return;
      }
      sbs := sbs[k := sbs[k].(dev := 0)];
    }

    /** One of read_super's loops: up to n bitmap blocks from block start,
      stopping at the first bread that fails. */
    static method ReadMaps(dv: Device, start: int, n: int) returns (m: seq<Option<MapBlock>>, next: int)
      requires DeviceOk(dv) && 0 <= n <= 8
      ensures next == start + Run(dv, start, n)
      ensures m == Loaded(dv, start, Run(dv, start, n))
    {
      m, next := NoMaps, start;
      var i := 0;
      while i < n
        invariant 0 <= i <= n && next == start + i
        invariant Readable(dv, start, next)
        invariant m == Loaded(dv, start, i)
        invariant Run(dv, start, n) == i + Run(dv, next, n - i)
      {
        if next !in dv.maps {
          break;
        }
        ReadStep(dv, start, n, i, next, m);
        m := m[i := Some(MapBlock(dv.maps[next], false))];
        next, i := next + 1, i + 1;
      }
    }

    /** read_super(dev) on the device dv. A super block already in the
      table is returned as it is; otherwise the first free slot is filled
      from block 1 and the bitmap blocks after it, and freed again when
      block 1 cannot be read, the magic is not 0x137F or a bitmap block
      cannot be read (see LoadOf). */
    method ReadSuper(dev: int, dv: Device) returns (r: int, fault: Fault)
      requires Valid() && DeviceOk(dv)
      modifies this
      ensures Valid() && -1 <= r < NR_SUPER
      ensures dev == 0 ==> r == -1 && fault == NoFault && sbs == old(sbs)
      ensures dev != 0 && (exists k :: 0 <= k < NR_SUPER && old(sbs[k]).dev == dev) ==>
        r != -1 && old(sbs[r]).dev == dev && sbs == old(sbs) && fault == NoFault
      ensures dev != 0 && (forall k :: 0 <= k < NR_SUPER ==> old(sbs[k]).dev != dev) && FirstFree(old(sbs)) == -1 ==>
        r == -1 && sbs == old(sbs) && fault == NoFault
      ensures r != -1 ==> sbs[r].dev == dev
      ensures dev != 0 && (forall k :: 0 <= k < NR_SUPER ==> old(sbs[k]).dev != dev) && FirstFree(old(sbs)) != -1 ==>
        Filled(old(sbs), sbs, FirstFree(old(sbs)), dev, dv, r, fault)
    {
      fault := NoFault;
      if dev == 0 {
        return -1, fault;
      }
      r := GetSuper(dev);
      if r != -1 {
        return;
      }
      var f := FindFree();
      if f == -1 {
        return -1, fault;
      }
      r, fault := Fill(f, dev, dv);
    }

    /** read_super from the moment a free slot f was found for dev. */
    method Fill(f: int, dev: int, dv: Device) returns (r: int, fault: Fault)
      requires Valid() && DeviceOk(dv) && 0 <= f < NR_SUPER && sbs[f].dev == 0 && dev != 0
      requires forall k :: 0 <= k < NR_SUPER ==> sbs[k].dev != dev
      modifies this
      ensures Valid() && Filled(old(sbs), sbs, f, dev, dv, r, fault)
    {
      sbs := sbs[f := sbs[f].(dev := dev, isup := -1, imount := -1, time := 0, rdOnly := false, dirt := false)];
      if dv.block1.None? {
        sbs := sbs[f := sbs[f].(dev := 0)];
        return -1, NoFault;
      }
      var d := dv.block1.value;
      sbs := sbs[f := sbs[f].(d := d)];
      if d.magic != SUPER_MAGIC {
        sbs := sbs[f := sbs[f].(dev := 0)];
        return -1, NoFault;
      }
      var l := LoadMaps(dv, d);
      sbs := sbs[f := sbs[f].(imaps := l.imaps, zmaps := l.zmaps)];
      fault := l.fault;
      if l.ok {
        r := f;
      } else {
        if fault == NoFault {
          sbs := sbs[f := sbs[f].(dev := 0)];
        }
        r := -1;
      }
    }

    /** The two bitmap loops of read_super and the check after them. */
    static method LoadMaps(dv: Device, d: DSuper) returns (l: Load)
      requires DeviceOk(dv) && 0 <= d.imapBlocks && 0 <= d.zmapBlocks
      ensures l == LoadOf(dv, d)
    {
      var imaps, next := ReadMaps(dv, 2, Min(d.imapBlocks, I_MAP_SLOTS));
      ghost var ki := next - 2;
      if d.imapBlocks > I_MAP_SLOTS && next == 2 + I_MAP_SLOTS {
        l := Load(MapOverrun, false, imaps, NoMaps);
        LoadOfIs(dv, d, ki, Run(dv, 2 + ki, Min(d.zmapBlocks, Z_MAP_SLOTS)));
        return;
      }
      l := LoadZones(dv, d, imaps, next);
      LoadOfIs(dv, d, ki, Run(dv, 2 + ki, Min(d.zmapBlocks, Z_MAP_SLOTS)));
    }

    /** The zone map loop of read_super, after the inode maps were read
      into imaps up to block next, and the check after it. */
    static method LoadZones(dv: Device, d: DSuper, imaps: seq<Option<MapBlock>>, next: int) returns (l: Load)
      requires DeviceOk(dv) && 0 <= d.imapBlocks && 0 <= d.zmapBlocks
      requires next == 2 + Run(dv, 2, Min(d.imapBlocks, I_MAP_SLOTS)) && imaps == Loaded(dv, 2, next - 2)
      requires !(d.imapBlocks > I_MAP_SLOTS && next == 2 + I_MAP_SLOTS)
      ensures l == LoadAfter(dv, d, next - 2, Run(dv, next, Min(d.zmapBlocks, Z_MAP_SLOTS)))
    {
      var zmaps, block := ReadMaps(dv, next, Min(d.zmapBlocks, Z_MAP_SLOTS));
      ghost var kz := block - next;
      assert LoadAfter(dv, d, next - 2, kz) == Outcome(d, next - 2, kz, imaps, zmaps);
      if d.zmapBlocks > Z_MAP_SLOTS && block == next + Z_MAP_SLOTS {
        return Load(MapOverrun, false, imaps, zmaps);
      }
      if block != 2 + d.imapBlocks + d.zmapBlocks {
        return Load(NoFault, false, imaps, zmaps);
      }
      var fault := if imaps[0].None? || zmaps[0].None? then NullMap else NoFault;
      l := Load(fault, true, ForceBit0(imaps), ForceBit0(zmaps));
    }

    /** The scan of read_super for a free slot. */
    method FindFree() returns (f: int)
      requires Valid()
      ensures f == FirstFree(sbs)
    {
      f := 0;
      while f < NR_SUPER
        invariant 0 <= f <= NR_SUPER && forall k :: 0 <= k < f ==> sbs[k].dev != 0
      {
        if sbs[f].dev == 0 {
          FirstFreeIs(sbs, f);
          return;
        }
        f := f + 1;
      }
      f := -1;
    }

    /** The checks of sys_mount and its effect on the table, given the
      inodes namei found for the device file (devI) and the directory
      (dirI, in slot dirSlot), None when namei fails. On success the
      directory is the new s_imount and comes back with i_mount and i_dirt
      set; it keeps the reference namei took. */
    method SysMount(devI: Option<MInode>, dirI: Option<MInode>, dirSlot: int, dv: Device)
      returns (err: int, dir: MInode)
      requires Valid() && DeviceOk(dv)
      requires devI.Some? ==> |devI.value.zone| == 9
      modifies this
      ensures Valid()
      ensures devI.None? ==> err == -ENOENT && sbs == old(sbs)
      ensures devI.Some? && !IsBlk(devI.value.mode) ==> err == -EPERM && sbs == old(sbs)
      ensures devI.Some? && IsBlk(devI.value.mode) && dirI.None? ==> err == -ENOENT && sbs == old(sbs)
      ensures devI.Some? && IsBlk(devI.value.mode) && dirI.Some? && (dirI.value.count != 1 || dirI.value.num == ROOT_INO) ==>
        err == -EBUSY && sbs == old(sbs)
      ensures devI.Some? && IsBlk(devI.value.mode) && dirI.Some? && dirI.value.count == 1 &&
              dirI.value.num != ROOT_INO && !IsDir(dirI.value.mode) ==>
        err == -EPERM && sbs == old(sbs)
      ensures err == 0 ==>
        devI.Some? && dirI.Some? && IsBlk(devI.value.mode) && IsDir(dirI.value.mode) && !dirI.value.mount &&
        dirI.value.count == 1 && dirI.value.num != ROOT_INO &&
        dir == dirI.value.(mount := true, dirt := true) &&
        exists k :: 0 <= k < NR_SUPER && sbs[k].dev == devI.value.zone[0] && sbs[k].imount == dirSlot
      ensures err == 0 || err == -ENOENT || err == -EPERM || err == -EBUSY
    {
      dir := EmptyInode;
      if devI.None? {
        return -ENOENT, dir;
      }
      var dev := devI.value.zone[0];
      if !IsBlk(devI.value.mode) {
        return -EPERM, dir;
      }
      if dirI.None? {
        return -ENOENT, dir;
      }
      dir := dirI.value;
      if dir.count != 1 || dir.num == ROOT_INO {
        return -EBUSY, dir;
      }
      if !IsDir(dir.mode) {
        return -EPERM, dir;
      }
      var k, fault := ReadSuper(dev, dv);
      if k == -1 {
        return -EBUSY, dir;
      }
      if sbs[k].imount != -1 {
        return -EBUSY, dir;
      }
      if dir.mount {
        return -EPERM, dir;
      }
      sbs := sbs[k := sbs[k].(imount := dirSlot)];
      assert sbs[k].dev == dev && sbs[k].imount == dirSlot;
      dir := dir.(mount := true, dirt := true);
      err := 0;
    }

    /** The checks of sys_umount and its effect on the table, given the
      inode namei found for the device file and the inode table. Unmounting
      the root device, a device not mounted, or one with an inode in use is
      refused. On success the super block is freed; mountedOn and root are
      the inode slots the call then clears i_mount on and iputs, before
      sync_dev of the device. */
    method SysUmount(devI: Option<MInode>, inodes: seq<MInode>) returns (err: int, mountedOn: int, root: int)
      requires Valid()
      requires devI.Some? ==> |devI.value.zone| == 9
      modifies this
      ensures Valid()
      ensures devI.None? ==> err == -ENOENT && sbs == old(sbs)
      ensures devI.Some? && !IsBlk(devI.value.mode) ==> err == -ENOTBLK && sbs == old(sbs)
      ensures devI.Some? && IsBlk(devI.value.mode) && devI.value.zone[0] == rootDev ==> err == -EBUSY && sbs == old(sbs)
      ensures err != 0 ==> sbs == old(sbs)
      ensures err == 0 ==>
        devI.Some? && IsBlk(devI.value.mode) && devI.value.zone[0] != rootDev &&
        (forall j :: 0 <= j < |inodes| ==> !(inodes[j].dev == devI.value.zone[0] && inodes[j].count != 0)) &&
        exists k :: 0 <= k < NR_SUPER && old(sbs[k]).dev == devI.value.zone[0] && old(sbs[k]).imount != -1 &&
          mountedOn == old(sbs[k]).imount && root == old(sbs[k]).isup &&
          sbs == old(sbs)[k := old(sbs[k]).(dev := 0, imount := -1, isup := -1)]
      ensures devI.Some? && IsBlk(devI.value.mode) && devI.value.zone[0] != rootDev &&
              (exists j :: 0 <= j < |inodes| && inodes[j].dev == devI.value.zone[0] && inodes[j].count != 0) ==>
        err != 0
    {
      mountedOn, root := -1, -1;
      if devI.None? {
        return -ENOENT, mountedOn, root;
      }
      var dev := devI.value.zone[0];
      if !IsBlk(devI.value.mode) {
        return -ENOTBLK, mountedOn, root;
      }
      if dev == rootDev {
        return -EBUSY, mountedOn, root;
      }
      var k := GetSuper(dev);
      if k == -1 || sbs[k].imount == -1 {
        return -ENOENT, mountedOn, root;
      }
      var busy := InUse(inodes, dev);
      if busy {
        return -EBUSY, mountedOn, root;
      }
      mountedOn, root := sbs[k].imount, sbs[k].isup;
      sbs := sbs[k := sbs[k].(imount := -1, isup := -1)];
      PutSuper(dev);
      err := 0;
    }
  }

  function Min(a: int, b: int): int { if a < b then a else b }

  lemma {:induction false} FirstFreeIs(s: seq<Sb>, f: int)
    requires 0 <= f < |s| && s[f].dev == 0 && forall k :: 0 <= k < f ==> s[k].dev != 0
    ensures FirstFree(s) == f
    decreases f
  {
    if f > 0 {
      FirstFreeIs(s[1..], f - 1);
    }
  }

  /** sys_umount's scan of the inode table for an inode of dev in use. */
  method InUse(inodes: seq<MInode>, dev: int) returns (busy: bool)
    ensures busy <==> exists j :: 0 <= j < |inodes| && inodes[j].dev == dev && inodes[j].count != 0
  {
    var i := 0;
    while i < |inodes|
      invariant 0 <= i <= |inodes|
      invariant forall j :: 0 <= j < i ==> !(inodes[j].dev == dev && inodes[j].count != 0)
    {
      if inodes[i].dev == dev && inodes[i].count != 0 {
        return true;
      }
      i := i + 1;
    }
    busy := false;
  }
}
