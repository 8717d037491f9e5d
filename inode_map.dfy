/** Logical-to-physical block mapping of an inode (_bmap, bmap and
    create_block in fs/inode.c). A file's block is found through the seven
    direct zones, the indirect block named by zone 7 or the double indirect
    block named by zone 8. The blocks read on the way are the Volume's
    cached blocks; a block whose read fails maps to 0, as in the source. */
module InodeMap {
  import opened Util
  import opened FsDefs
  import opened Bitmap
  import opened Truncate

  /** Seven direct, 512 indirect and 512*512 double indirect blocks. */
  const MAX_BLOCK: int := 7 + 512 + 512 * 512

  /** Where a logical block is found: direct zone k, entry k of the
      indirect block, or entry lo of the block named by entry hi of the
      double indirect block. */
  datatype Path = Direct(k: int) | Single(k: int) | Double(hi: int, lo: int)

  predicate PathOk(p: Path)
  {
    match p
    case Direct(k) => 0 <= k < 7
    case Single(k) => 0 <= k < 512
    case Double(hi, lo) => 0 <= hi < 512 && 0 <= lo < 512
  }

  /** _bmap's index arithmetic: block -= 7, then block -= 512, then
      block >> 9 and block & 511 (the same as / 512 and % 512 here, where
      the value is not negative). */
  function PathOf(block: int): (p: Path)
    requires 0 <= block < MAX_BLOCK
    ensures PathOk(p)
  {
    if block < 7 then Direct(block)
    else if block - 7 < 512 then Single(block - 7)
    else Double((block - 7 - 512) / 512, (block - 7 - 512) % 512)
  }

  /** The logical block a path stands for. */
  function LogicalOf(p: Path): int
  {
    match p
    case Direct(k) => k
    case Single(k) => 7 + k
    case Double(hi, lo) => 7 + 512 + 512 * hi + lo
  }

  /** Every logical block has one path and every path one logical block. */
  lemma PathRoundTrip(block: int)
    requires 0 <= block < MAX_BLOCK
    ensures LogicalOf(PathOf(block)) == block
  {
  }

  lemma LogicalRoundTrip(p: Path)
    requires PathOk(p)
    ensures 0 <= LogicalOf(p) < MAX_BLOCK && PathOf(LogicalOf(p)) == p
  {
    if p.Double? {
      var b := LogicalOf(p) - 7 - 512;
      assert b == 512 * p.hi + p.lo;
      assert b / 512 == p.hi && b % 512 == p.lo;
    }
  }

  /** What _bmap yields: a zone number (0 for a hole or a failed read) or a panic. */
  datatype Mapping = Mapped(zone: int) | BmapPanic(msg: string)

  /** Entry k of block b as _bmap reads it: 0 when b is 0 or cannot be read. */
  function Lookup(c: map<int, seq<Byte>>, b: int, k: int): (r: int)
    requires ContentsOk(c) && 0 <= k < 512
    ensures 0 <= r < 0x1_0000
  {
    if b == 0 || b !in c then 0 else Entry(c[b], k)
  }

  /** bmap(inode, block), that is _bmap with create 0, over the contents of
      the device's blocks. It changes nothing: each bread is matched by a
      brelse. */
  function Bmap(c: map<int, seq<Byte>>, zone: seq<int>, block: int): Mapping
    requires ContentsOk(c) && |zone| == 9
  {
    if block < 0 then BmapPanic("_bmap: block<0")
    else if block >= MAX_BLOCK then BmapPanic("_bmap: block>big")
    else match PathOf(block)
      case Direct(k) => Mapped(zone[k])
      case Single(k) => Mapped(Lookup(c, zone[7], k))
      case Double(hi, lo) => Mapped(Lookup(c, Lookup(c, zone[8], hi), lo))
  }

  /** bmap panics exactly outside 0 .. MAX_BLOCK - 1. */
  lemma BmapPanics(c: map<int, seq<Byte>>, zone: seq<int>, block: int)
    requires ContentsOk(c) && |zone| == 9
    ensures Bmap(c, zone, block).BmapPanic? <==> block < 0 || block >= MAX_BLOCK
  {
  }

  lemma {:induction false} NonZeroHas(data: seq<Byte>, n: int, k: int)
    requires |data| == BLOCK_SIZE && 0 <= k < n <= 512 && Entry(data, k) != 0
    ensures Entry(data, k) in NonZero(data, n)
  {
    if k < n - 1 {
      NonZeroHas(data, n - 1, k);
    }
  }

  lemma {:induction false} DirectFreesHas(zone: seq<int>, n: int, k: int)
    requires |zone| == 9 && 0 <= k < n <= 7 && zone[k] != 0
    ensures zone[k] in DirectFrees(zone, n)
  {
    if k < n - 1 {
      DirectFreesHas(zone, n - 1, k);
    }
  }

  lemma {:induction false} DindFromHas(c: map<int, seq<Byte>>, data: seq<Byte>, n: int, hi: int, x: int)
    requires ContentsOk(c) && |data| == BLOCK_SIZE && 0 <= hi < n <= 512
    requires Entry(data, hi) != 0 && x in IndFrees(c, Entry(data, hi))
    ensures x in DindFrom(c, data, n)
  {
    var last := DindFromLast(c, data, n);
    if hi < n - 1 {
      DindFromHas(c, data, n - 1, hi, x);
      InEither(DindFrom(c, data, n - 1), last, x);
    } else {
      InEither(DindFrom(c, data, n - 1), last, x);
    }
  }

  /** The blocks free_dind frees for entry n - 1 come after those for the
      entries before it. */
  lemma DindFromLast(c: map<int, seq<Byte>>, data: seq<Byte>, n: int) returns (last: seq<int>)
    requires ContentsOk(c) && |data| == BLOCK_SIZE && 0 < n <= 512
    ensures last == (if Entry(data, n - 1) != 0 then IndFrees(c, Entry(data, n - 1)) else [])
    ensures DindFrom(c, data, n) == DindFrom(c, data, n - 1) + last
  {
    last := if Entry(data, n - 1) != 0 then IndFrees(c, Entry(data, n - 1)) else [];
  }

  lemma InEither(a: seq<int>, b: seq<int>, x: int)
    ensures x in a + b <==> x in a || x in b
  {
  }

  /** Every block bmap finds for a file is one that truncate frees: no zone
      reachable through the inode survives truncation. */
  lemma MappedIsFreed(c: map<int, seq<Byte>>, zone: seq<int>, block: int)
    requires ContentsOk(c) && |zone| == 9
    requires Bmap(c, zone, block).Mapped? && Bmap(c, zone, block).zone != 0
    ensures Bmap(c, zone, block).zone in TruncFrees(c, zone)
  {
    var z := Bmap(c, zone, block).zone;
    match PathOf(block)
    case Direct(k) =>
      DirectFreesHas(zone, 7, k);
    case Single(k) =>
      NonZeroHas(c[zone[7]], 512, k);
      assert z in IndFrees(c, zone[7]);
    case Double(hi, lo) =>
      var mid := Lookup(c, zone[8], hi);
      NonZeroHas(c[mid], 512, lo);
      assert z in IndFrees(c, mid);
      DindFromHas(c, c[zone[8]], 512, hi, z);
      assert z in DindFrees(c, zone[8]);
  }

  /** Bit n of a zone map is present and set. */
  ghost predicate Marked(m: seq<Option<MapBlock>>, n: int)
  {
    MapOk(m) && Present(m, n) && BitAt(m, n)
  }

  /** Zone bits are only ever set, never cleared, between two zone maps. */
  ghost predicate Grows(m: seq<Option<MapBlock>>, m': seq<Option<MapBlock>>)
  {
    forall n {:trigger Marked(m, n), Marked(m', n)} :: Marked(m, n) ==> Marked(m', n)
  }

  lemma GrowsTrans(m: seq<Option<MapBlock>>, m': seq<Option<MapBlock>>, m'': seq<Option<MapBlock>>)
    requires Grows(m, m') && Grows(m', m'')
    ensures Grows(m, m'')
  {
    forall n | Marked(m, n)
      ensures Marked(m'', n)
    {
      assert Marked(m', n);
    }
  }

  /** new_block as create_block uses it: 0, or a data zone whose bit was
      clear and is now set and whose contents are now zero; a zone whose
      buffer is referenced is never handed out without a panic. */
  method NewZone(v: Volume) returns (st: Status, b: int)
    requires v.Valid()
    modifies v
    ensures v.Valid() && v.inodeMap == old(v.inodeMap) && Grows(old(v.zoneMap), v.zoneMap)
    ensures st == Done && b == 0 ==> v.cached == old(v.cached)
    ensures st == Done && b != 0 ==>
      v.firstDataZone <= b < v.nzones && !Marked(old(v.zoneMap), ZoneBit(b, v.firstDataZone)) &&
      Marked(v.zoneMap, ZoneBit(b, v.firstDataZone)) &&
      (b !in old(v.cached) || old(v.cached[b].count) == 0) &&
      v.cached == old(v.cached)[b := Cached(0, true, true, ZeroBlock())]
  {
    ghost var n;
    ghost var m := v.zoneMap;
    st, b, n := v.NewBlock();
    if v.zoneMap != m {
      forall k | Marked(m, k)
        ensures Marked(v.zoneMap, k)
      {
        PutBits(m, n, true, k);
      }
      if st == Done && b != 0 {
        PutBits(m, n, true, n);
        assert ZoneBit(b, v.firstDataZone) == n;
      }
    }
  }

  /** c' agrees with c on every block other than b and e. */
  ghost predicate SameElsewhere(c: map<int, seq<Byte>>, c': map<int, seq<Byte>>, b: int, e: int)
  {
    forall x :: x != b && x != e ==> (x in c' <==> x in c) && (x in c ==> c'[x] == c[x])
  }

  /** A zone whose bit was clear before and is set now. */
  ghost predicate Fresh(m: seq<Option<MapBlock>>, m': seq<Option<MapBlock>>, fdz: int, e: int)
  {
    !Marked(m, ZoneBit(e, fdz)) && Marked(m', ZoneBit(e, fdz))
  }

  /** One level of _bmap with create set: read block b (b != 0), take entry
      k, and if it is 0 allocate a zone, store it there and mark the buffer
      dirty; release the buffer and return the entry. */
  method ThroughBlock(v: Volume, b: int, k: int) returns (st: Status, e: int)
    requires v.Valid() && b != 0 && 0 <= k < 512
    modifies v
    ensures v.Valid() && v.inodeMap == old(v.inodeMap) && Grows(old(v.zoneMap), v.zoneMap)
    ensures ContentsOk(Contents(old(v.cached))) && ContentsOk(Contents(v.cached))
    ensures b !in old(v.cached) || Lookup(Contents(old(v.cached)), b, k) != 0 ==>
      st == Done && e == Lookup(Contents(old(v.cached)), b, k) && v.cached == old(v.cached) && v.zoneMap == old(v.zoneMap)
    ensures st == Done && e != 0 ==> Lookup(Contents(v.cached), b, k) == e
    ensures st == Done && e == 0 ==> Contents(v.cached) == Contents(old(v.cached))
    ensures st == Done && e != 0 && v.cached != old(v.cached) ==>
      e != b && b in v.cached && Fresh(old(v.zoneMap), v.zoneMap, v.firstDataZone, e) &&
      SameElsewhere(Contents(old(v.cached)), Contents(v.cached), b, e)
  {
    ghost var c0 := v.cached;
    ContentsOfOk(v.cached);
    var ok := v.Bread(b);
    if !ok {
      return Done, 0;
    }
    var data := v.cached[b].data;
    e := Entry(data, k);
    if e != 0 {
      st := v.Brelse(b);
      assert v.cached == c0;
      return;
    }
    st, e := NewZone(v);
    if st != Done {
      return;
    }
    if e != 0 {
      assert e != b;
      v.SetData(b, SetEntry(data, k, e));
      EntryOfSet(data, k, e, k);
    }
    st := v.Brelse(b);
    ContentsOfOk(v.cached);
  }

  /** The first step of each case of _bmap with create set: when i_zone[j]
      is 0, allocate a zone into it and, if one was found, set i_ctime and
      i_dirt. */
  method ZoneSlot(v: Volume, inode: MInode, j: int, now: int) returns (st: Status, r: MInode)
    requires v.Valid() && ZonesOk(inode.zone) && 0 <= j < 9
    modifies v
    ensures v.Valid() && v.inodeMap == old(v.inodeMap) && Grows(old(v.zoneMap), v.zoneMap)
    ensures ContentsOk(Contents(old(v.cached))) && ContentsOk(Contents(v.cached))
    ensures inode.zone[j] != 0 ==> st == Done && r == inode && v.cached == old(v.cached) && v.zoneMap == old(v.zoneMap)
    ensures st == Done ==> ZonesOk(r.zone) && Allocated(inode, r, now)
    ensures st == Done && r.zone[j] == 0 ==> v.cached == old(v.cached)
    ensures st == Done && inode.zone[j] == 0 && r.zone[j] != 0 ==>
      r.zone == inode.zone[j := r.zone[j]] &&
      Fresh(old(v.zoneMap), v.zoneMap, v.firstDataZone, r.zone[j]) &&
      r.zone[j] in Contents(v.cached) && Lookup(Contents(v.cached), r.zone[j], 0) == 0 &&
      (forall k :: 0 <= k < 512 ==> Lookup(Contents(v.cached), r.zone[j], k) == 0)
  {
    ContentsOfOk(v.cached);
    r := inode;
    st := Done;
    if inode.zone[j] == 0 {
      var nb;
      st, nb := NewZone(v);
      if st == Done && nb != 0 {
        r := inode.(zone := inode.zone[j := nb], ctime := now, dirt := true);
      }
    }
    ContentsOfOk(v.cached);
  }

  /** r is inode, or inode with zones that were 0 filled in, i_ctime set and
      i_dirt set: create_block only ever allocates into a zero entry. */
  ghost predicate Allocated(inode: MInode, r: MInode, now: int)
  {
    |inode.zone| == 9 && |r.zone| == 9 &&
    (r == inode || r == inode.(zone := r.zone, ctime := now, dirt := true)) &&
    forall k :: 0 <= k < 9 && r.zone[k] != inode.zone[k] ==> inode.zone[k] == 0
  }

  /** The two lower levels of the double indirect case: entry hi of block
      z8, then entry lo of the block it names. The allocated block is found
      again when z8 is marked in use and its entry hi does not name z8. */
  method DoubleThrough(v: Volume, z8: int, hi: int, lo: int) returns (st: Status, z: int)
    requires v.Valid() && z8 != 0 && 0 <= hi < 512 && 0 <= lo < 512
    modifies v
    ensures v.Valid() && v.inodeMap == old(v.inodeMap) && Grows(old(v.zoneMap), v.zoneMap)
    ensures ContentsOk(Contents(old(v.cached))) && ContentsOk(Contents(v.cached))
    ensures Lookup(Contents(old(v.cached)), Lookup(Contents(old(v.cached)), z8, hi), lo) != 0 ==>
      st == Done && z == Lookup(Contents(old(v.cached)), Lookup(Contents(old(v.cached)), z8, hi), lo) &&
      v.cached == old(v.cached) && v.zoneMap == old(v.zoneMap)
    ensures st == Done && z != 0 && Marked(old(v.zoneMap), ZoneBit(z8, v.firstDataZone)) &&
            Lookup(Contents(old(v.cached)), z8, hi) != z8 ==>
      Lookup(Contents(v.cached), Lookup(Contents(v.cached), z8, hi), lo) == z
  {
    ContentsOfOk(v.cached);
    ghost var c0, m0 := Contents(v.cached), v.zoneMap;
    var mid;
    st, mid := ThroughBlock(v, z8, hi);
    z := 0;
    if st != Done || mid == 0 {
      return;
    }
    ghost var c2, m2 := Contents(v.cached), v.zoneMap;
    st, z := ThroughBlock(v, mid, lo);
    GrowsTrans(m0, m2, v.zoneMap);
    if st == Done && z != 0 && Marked(m0, ZoneBit(z8, v.firstDataZone)) && Lookup(c0, z8, hi) != z8 {
      assert mid != z8;
      assert Marked(m2, ZoneBit(z8, v.firstDataZone));
      assert Lookup(Contents(v.cached), z8, hi) == mid;
    }
  }

  /** What bmap needs of the disk before a double indirect allocation to
      find the allocated block again: the double indirect block, when there
      is one, is marked in use, and its entry hi does not name itself. */
  ghost predicate DoubleSound(m: seq<Option<MapBlock>>, fdz: int, c: map<int, seq<Byte>>, z8: int, hi: int)
    requires ContentsOk(c) && 0 <= hi < 512
  {
    z8 != 0 ==> Marked(m, ZoneBit(z8, fdz)) && Lookup(c, z8, hi) != z8
  }

  /** What create_block needs of the disk to find its block again: in the
      double indirect case, DoubleSound. */
  ghost predicate Sound(m: seq<Option<MapBlock>>, fdz: int, c: map<int, seq<Byte>>, zone: seq<int>, block: int)
    requires ContentsOk(c) && |zone| == 9 && 0 <= block < MAX_BLOCK
  {
    PathOf(block).Double? ==> DoubleSound(m, fdz, c, zone[8], PathOf(block).hi)
  }

  /** create_block(inode, block), that is _bmap with create set. It panics
      outside 0 .. MAX_BLOCK - 1; a block bmap already finds is returned and
      nothing changes; otherwise zones are allocated only into zero entries
      on the path, and the result, when not 0, is what bmap then finds. */
  method CreateBlock(v: Volume, inode: MInode, block: int, now: int) returns (st: Status, r: MInode, z: int)
    requires v.Valid() && ZonesOk(inode.zone)
    modifies v
    ensures v.Valid() && v.inodeMap == old(v.inodeMap) && Grows(old(v.zoneMap), v.zoneMap)
    ensures ContentsOk(Contents(old(v.cached))) && ContentsOk(Contents(v.cached))
    ensures block < 0 ==>
      st == Panic("_bmap: block<0") && r == inode && v.cached == old(v.cached) && v.zoneMap == old(v.zoneMap)
    ensures block >= MAX_BLOCK ==>
      st == Panic("_bmap: block>big") && r == inode && v.cached == old(v.cached) && v.zoneMap == old(v.zoneMap)
    ensures 0 <= block < MAX_BLOCK && Bmap(Contents(old(v.cached)), inode.zone, block).zone != 0 ==>
      st == Done && z == Bmap(Contents(old(v.cached)), inode.zone, block).zone && r == inode &&
      v.cached == old(v.cached) && v.zoneMap == old(v.zoneMap)
    ensures st == Done ==> 0 <= block < MAX_BLOCK && ZonesOk(r.zone) && Allocated(inode, r, now)
    ensures st == Done && z != 0 && Sound(old(v.zoneMap), v.firstDataZone, Contents(old(v.cached)), inode.zone, block) ==>
      Bmap(Contents(v.cached), r.zone, block) == Mapped(z)
  {
    ContentsOfOk(v.cached);
    r, z := inode, 0;
    if block < 0 {
      return Panic("_bmap: block<0"), r, z;
    }
    if block >= MAX_BLOCK {
      return Panic("_bmap: block>big"), r, z;
    }
    match PathOf(block)
    case Direct(k) =>
      st, r := ZoneSlot(v, inode, k, now);
      if st == Done {
        z := r.zone[k];
      }
    case Single(k) =>
      ghost var m0 := v.zoneMap;
      st, r := ZoneSlot(v, inode, 7, now);
      if st == Done && r.zone[7] != 0 {
        ghost var m1 := v.zoneMap;
        st, z := ThroughBlock(v, r.zone[7], k);
        GrowsTrans(m0, m1, v.zoneMap);
      }
    case Double(hi, lo) =>
      ghost var m0, c0 := v.zoneMap, Contents(v.cached);
      st, r := ZoneSlot(v, inode, 8, now);
      if st == Done && r.zone[8] != 0 {
        if DoubleSound(m0, v.firstDataZone, c0, inode.zone[8], hi) {
          if inode.zone[8] == 0 {
            assert Lookup(Contents(v.cached), r.zone[8], hi) == 0;
          }
          assert Marked(v.zoneMap, ZoneBit(r.zone[8], v.firstDataZone)) && Lookup(Contents(v.cached), r.zone[8], hi) != r.zone[8];
        }
        ghost var m1 := v.zoneMap;
        st, z := DoubleThrough(v, r.zone[8], hi, lo);
        GrowsTrans(m0, m1, v.zoneMap);
      }
  }
}
