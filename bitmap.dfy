/** The zone and inode bitmaps of a mounted device and the allocators over
    them (fs/bitmap.c). A bitmap block is shown as its 8192 bits: bit k of a
    block is bit k % 8 of byte k / 8 of its buffer, which is what btsl and
    btrl address on a little-endian machine. The buffers of the device's
    data blocks appear only as far as new_block and free_block touch them:
    their reference count, flags and contents. No other task runs during
    these calls. */
module Bitmap {
  import opened Util
  import opened FsDefs

  /** Bits in one bitmap block. */
  const BITS: int := 8192

  /** One bitmap block in the buffer cache: its bits and its b_dirt flag. */
  datatype MapBlock = MapBlock(bits: seq<bool>, dirt: bool)

  /** The buffer of one data block of the device. */
  datatype Cached = Cached(count: nat, dirt: bool, uptodate: bool, data: seq<Byte>)

  /** s_imap[8] or s_zmap[8]: up to eight bitmap blocks, NULL entries absent. */
  predicate MapOk(m: seq<Option<MapBlock>>)
  {
    |m| == 8 && forall i :: 0 <= i < 8 && m[i].Some? ==> |m[i].value.bits| == BITS
  }

  /** Bit n of the map lies in a block that is present. */
  predicate Present(m: seq<Option<MapBlock>>, n: int)
    requires MapOk(m)
  {
    0 <= n < 8 * BITS && m[n / BITS].Some?
  }

  /** Bit n of the map. */
  function BitAt(m: seq<Option<MapBlock>>, n: int): bool
    requires MapOk(m) && Present(m, n)
  {
    m[n / BITS].value.bits[n % BITS]
  }

  /** Bit n is the first clear bit in the present blocks, in block order. */
  ghost predicate FirstClear(m: seq<Option<MapBlock>>, n: int)
    requires MapOk(m)
  {
    Present(m, n) && !BitAt(m, n) && forall k :: 0 <= k < n && Present(m, k) ==> BitAt(m, k)
  }

  /** Every bit of every present block is set. */
  ghost predicate NoneClear(m: seq<Option<MapBlock>>)
    requires MapOk(m)
  {
    forall k :: Present(m, k) ==> BitAt(m, k)
  }

  /** The map with bit n set to v and its block marked dirty. */
  function Put(m: seq<Option<MapBlock>>, n: int, v: bool): (r: seq<Option<MapBlock>>)
    requires MapOk(m) && Present(m, n)
    ensures MapOk(r)
  {
    m[n / BITS := Some(MapBlock(m[n / BITS].value.bits[n % BITS := v], true))]
  }

  /** Put changes bit n and no other bit, and no block's presence. */
  lemma PutBits(m: seq<Option<MapBlock>>, n: int, v: bool, k: int)
    requires MapOk(m) && Present(m, n)
    ensures Present(Put(m, n, v), k) == Present(m, k)
    ensures Present(m, k) ==> BitAt(Put(m, n, v), k) == if k == n then v else BitAt(m, k)
  {
    if Present(m, k) && k != n && k / BITS == n / BITS {
      assert k % BITS != n % BITS;
    }
  }

  /** Clearing a bit that was set restores the bits of the map from before
      it was set: free_block undoes new_block (the blocks stay dirty). */
  lemma {:induction false} ClearUndoesSet(m: seq<Option<MapBlock>>, n: int, k: int)
    requires MapOk(m) && Present(m, n) && !BitAt(m, n) && Present(m, k)
    ensures Present(Put(Put(m, n, true), n, false), k)
    ensures BitAt(Put(Put(m, n, true), n, false), k) == BitAt(m, k)
  {
    PutBits(m, n, true, k);
    PutBits(m, n, true, n);
    PutBits(Put(m, n, true), n, false, k);
  }

  /** b_data[0] |= 1 on the first bitmap block, when there is one: bit 0
      is set in place, and the block's b_dirt is not touched. */
  function ForceBit0(m: seq<Option<MapBlock>>): (r: seq<Option<MapBlock>>)
    requires MapOk(m)
    ensures MapOk(r)
  {
    if m[0].None? then m else m[0 := Some(m[0].value.(bits := m[0].value.bits[0 := true]))]
  }

  /** After ForceBit0 neither inode 0 nor the zone before the first data
      zone can be handed out; every other bit is the one on disk, the first
      block keeps its dirty flag and the other blocks are untouched. */
  lemma ForceBit0Sets(m: seq<Option<MapBlock>>, n: int)
    requires MapOk(m) && m[0].Some? && Present(m, n)
    ensures Present(ForceBit0(m), n) && Present(ForceBit0(m), 0) && BitAt(ForceBit0(m), 0)
    ensures n != 0 ==> BitAt(ForceBit0(m), n) == BitAt(m, n)
    ensures ForceBit0(m)[0].value.dirt == m[0].value.dirt && ForceBit0(m)[1..] == m[1..]
  {
  }

  /** Every cached block holds BLOCK_SIZE bytes. */
  predicate BlocksOk(c: map<int, Cached>)
  {
    forall b :: b in c ==> |c[b].data| == BLOCK_SIZE
  }

  /** The contents of the cached blocks, without counts and flags: what
      bread of each block delivers. A block absent from the cache is one
      whose read fails. */
  function Contents(c: map<int, Cached>): map<int, seq<Byte>>
  {
    map b | b in c :: c[b].data
  }

  /** The bit that stands for data zone `block`, and back: bit 0 stands for
      the zone before the first data zone, which read_super marks used. */
  function ZoneBit(block: int, firstDataZone: int): int { block - (firstDataZone - 1) }
  function ZoneOf(bit: int, firstDataZone: int): int { bit + firstDataZone - 1 }

  /** find_first_zero on one bitmap block: the lowest clear bit, or BITS
      when every bit is set. (The source scans 32 bits at a time; the result
      is the same.) */
  method FindFirstZero(bits: seq<bool>) returns (r: int)
    requires |bits| == BITS
    ensures 0 <= r <= BITS
    ensures r < BITS ==> !bits[r]
    ensures forall k :: 0 <= k < r ==> bits[k]
  {
    r := 0;
    while r < BITS && bits[r]
      invariant 0 <= r <= BITS
      invariant forall k :: 0 <= k < r ==> bits[k]
    {
      r := r + 1;
    }
  }

  /** The bitmap half of a super block (struct super_block: s_imap, s_zmap,
      s_ninodes, s_nzones, s_firstdatazone) together with the buffers of the
      device's data blocks, keyed by block number. */
  class Volume {
    var zoneMap: seq<Option<MapBlock>>
    var inodeMap: seq<Option<MapBlock>>
    var cached: map<int, Cached>
    const firstDataZone: int
    const nzones: int
    const ninodes: int

    /** The maps are well formed, the geometry fits the 16-bit fields with
        the first data zone past block 0, the first block of each map is
        present with bit 0 set, and every cached block holds 1024 bytes.
        Nothing ties the blocks present to s_nzones or s_ninodes: read_super
        only checks that s_imap_blocks + s_zmap_blocks blocks were read, so a
        number the maps do not reach meets a NULL slot. */
    ghost predicate Valid()
      reads this
    {
      MapOk(zoneMap) && MapOk(inodeMap) &&
      1 <= firstDataZone < 0x1_0000 && 0 <= nzones < 0x1_0000 && 0 <= ninodes < 0x1_0000 &&
      Present(zoneMap, 0) && Present(inodeMap, 0) && BitAt(zoneMap, 0) && BitAt(inodeMap, 0) &&
      BlocksOk(cached)
    }

    /** The end of read_super for these maps: bit 0 of the first inode map
        block and of the first zone map block is forced to 1, so that neither
        inode 0 nor the zone before the first data zone can be allocated. */
    constructor Mount(z: seq<Option<MapBlock>>, i: seq<Option<MapBlock>>, cache: map<int, Cached>,
                      fdz: int, nz: int, ni: int)
      requires MapOk(z) && MapOk(i) && 1 <= fdz < 0x1_0000 && 0 <= nz < 0x1_0000 && 0 <= ni < 0x1_0000
      requires z[0].Some? && i[0].Some? && BlocksOk(cache)
      ensures Valid()
      ensures zoneMap == ForceBit0(z) && inodeMap == ForceBit0(i) && cached == cache
      ensures zoneMap[0].Some? && inodeMap[0].Some? && zoneMap[0].value.dirt == z[0].value.dirt && inodeMap[0].value.dirt == i[0].value.dirt
      ensures forall k :: 0 < k && Present(z, k) ==> BitAt(zoneMap, k) == BitAt(z, k)
      ensures forall k :: 0 < k && Present(i, k) ==> BitAt(inodeMap, k) == BitAt(i, k)
      ensures firstDataZone == fdz && nzones == nz && ninodes == ni
    {
      assert Present(z, 0) && Present(i, 0);
      zoneMap := ForceBit0(z);
      inodeMap := ForceBit0(i);
      cached := cache;
      firstDataZone, nzones, ninodes := fdz, nz, ni;
      new;
      forall k | 0 < k && Present(z, k)
        ensures BitAt(zoneMap, k) == BitAt(z, k)
      {
        ForceBit0Sets(z, k);
      }
      forall k | 0 < k && Present(i, k)
        ensures BitAt(inodeMap, k) == BitAt(i, k)
      {
        ForceBit0Sets(i, k);
      }
      ForceBit0Sets(z, 0);
      ForceBit0Sets(i, 0);
    }

    /** The scan of new_block and new_inode: for i from 0 to 7, the first
        present block whose find_first_zero is below 8192. `found` is false
        when no present block has a clear bit. */
    method Scan(m: seq<Option<MapBlock>>) returns (found: bool, n: int)
      requires MapOk(m)
      ensures found ==> FirstClear(m, n)
      ensures !found ==> NoneClear(m)
    {
      var i := 0;
      while i < 8
        invariant 0 <= i <= 8
        invariant forall k :: 0 <= k < i * BITS && Present(m, k) ==> BitAt(m, k)
      {
        if m[i].Some? {
          var j := FindFirstZero(m[i].value.bits);
          if j < BITS {
            n := j + i * BITS;
            assert n / BITS == i && n % BITS == j;
            forall k | 0 <= k < n && Present(m, k)
              ensures BitAt(m, k)
            {
              if k >= i * BITS {
                assert k / BITS == i && k % BITS < j;
              }
            }
            return true, n;
          }
        }
        forall k | i * BITS <= k < (i + 1) * BITS && Present(m, k)
          ensures BitAt(m, k)
        {
          assert k / BITS == i;
        }
        i := i + 1;
      }
      found, n := false, 0;
    }

    /** new_block: set the first clear zone bit, mark its map block dirty
        and return the zone it stands for, whose buffer is then zeroed, up
        to date and dirty, and released again. The result is 0 when no bit
        is clear. As written, when the zone of the first clear bit is at or
        beyond s_nzones the result is 0 but the bit stays set: that bit is
        lost to the allocator. getblk on a block whose buffer another task
        holds panics. */
    method NewBlock() returns (st: Status, r: int, ghost n: int)
      requires Valid()
      modifies this
      ensures Valid() && inodeMap == old(inodeMap)
      ensures st == Done || st == Panic("new block: count is != 1")
      ensures r == 0 && zoneMap == old(zoneMap) ==> st == Done && cached == old(cached) && NoneClear(old(zoneMap))
      ensures r == 0 && zoneMap != old(zoneMap) ==>
        st == Done && cached == old(cached) && FirstClear(old(zoneMap), n) &&
        zoneMap == Put(old(zoneMap), n, true) && ZoneOf(n, firstDataZone) >= nzones
      ensures r != 0 ==>
        FirstClear(old(zoneMap), n) && zoneMap == Put(old(zoneMap), n, true) &&
        r == ZoneOf(n, firstDataZone) && firstDataZone <= r < nzones
      ensures r != 0 && st == Done ==>
        (r !in old(cached) || old(cached[r].count) == 0) &&
        cached == old(cached)[r := Cached(0, true, true, ZeroBlock())]
      ensures st != Done ==> r != 0 && cached == old(cached) && r in cached && cached[r].count != 0
    {
      var found, b := Scan(zoneMap);
      n := b;
      if !found {
        return Done, 0, n;
      }
      PutBits(zoneMap, b, true, 0);
      zoneMap := Put(zoneMap, b, true);
      r := ZoneOf(b, firstDataZone);
      if r >= nzones {
        return Done, 0, n;
      }
      assert r != 0 by {
        assert b != 0;
      }
      if r in cached && cached[r].count != 0 {
        return Panic("new block: count is != 1"), r, n;
      }
      cached := cached[r := Cached(0, true, true, ZeroBlock())];
      st := Done;
    }

    /** free_block(dev, block): panics unless block is a data zone. When the
        block's buffer is cached, get_hash_table takes a reference; if
        another reference exists the call returns at once, as written
        leaving the zone bit set and the reference taken (neither is ever
        undone). Otherwise the buffer is made clean and not up to date and
        released, and the zone bit is cleared, with a panic when it was
        already clear. A zone bit whose s_zmap slot is NULL (the maps read
        do not reach it) is cleared through that NULL pointer: NullStore. */
    method FreeBlock(block: int) returns (st: Status)
      requires Valid()
      modifies this
      ensures Valid() && inodeMap == old(inodeMap)
      ensures !(firstDataZone <= block < nzones) ==>
        st == Panic("trying to free block not in datazone") && zoneMap == old(zoneMap) && cached == old(cached)
      ensures firstDataZone <= block < nzones && block in old(cached) && old(cached[block].count) != 0 ==>
        st == Done && zoneMap == old(zoneMap) &&
        cached == old(cached)[block := old(cached[block]).(count := old(cached[block].count) + 1)]
      ensures firstDataZone <= block < nzones && !(block in old(cached) && old(cached[block].count) != 0) ==>
        var n := ZoneBit(block, firstDataZone);
        1 <= n < 8 * BITS &&
        cached == (if block in old(cached) then old(cached)[block := old(cached[block]).(dirt := false, uptodate := false)]
                   else old(cached)) &&
        if !Present(old(zoneMap), n) then st == NullStore && zoneMap == old(zoneMap)
        else if BitAt(old(zoneMap), n) then st == Done && zoneMap == Put(old(zoneMap), n, false)
        else st == Panic("free_block: bit already cleared") && zoneMap == old(zoneMap)
      ensures Contents(cached) == Contents(old(cached))
    {
      if block < firstDataZone || block >= nzones {
        return Panic("trying to free block not in datazone");
      }
      if block in cached {
        if cached[block].count != 0 {
          cached := cached[block := cached[block].(count := cached[block].count + 1)];
          return Done;
        }
        cached := cached[block := cached[block].(dirt := false, uptodate := false)];
      }
      var n := ZoneBit(block, firstDataZone);
      if zoneMap[n / BITS].None? {
        return NullStore;
      }
      if !BitAt(zoneMap, n) {
        return Panic("free_block: bit already cleared");
      }
      // Bit 0 is left alone: n >= 1 because block >= firstDataZone.
      PutBits(zoneMap, n, false, 0);
      zoneMap := Put(zoneMap, n, false);
      st := Done;
    }

    /** The bitmap part of new_inode: the first clear inode bit j + 8192*i
        is refused when it is beyond s_ninodes (nothing changes); otherwise
        it is set, its block marked dirty, and the number is the new
        inode's i_num. */
    method NewInodeBit() returns (ok: bool, num: int)
      requires Valid()
      modifies this
      ensures Valid() && zoneMap == old(zoneMap) && cached == old(cached)
      ensures ok ==> FirstClear(old(inodeMap), num) && 1 <= num <= ninodes && inodeMap == Put(old(inodeMap), num, true)
      ensures !ok ==> inodeMap == old(inodeMap) && (NoneClear(old(inodeMap)) || exists n :: FirstClear(old(inodeMap), n) && n > ninodes)
    {
      var found, n := Scan(inodeMap);
      if !found || n > ninodes {
        return false, 0;
      }
      assert n != 0;
      PutBits(inodeMap, n, true, 0);
      inodeMap := Put(inodeMap, n, true);
      ok, num := true, n;
    }

    /** The bitmap part of free_inode for inode number num: panics unless
        1 <= num <= s_ninodes, and when the s_imap slot of num is NULL;
        otherwise clears the bit (an already clear bit is only reported) and
        marks its block dirty. */
    method FreeInodeBit(num: int) returns (st: Status, wasClear: bool)
      requires Valid()
      modifies this
      ensures Valid() && zoneMap == old(zoneMap) && cached == old(cached)
      ensures !(1 <= num <= ninodes) ==> st == Panic("trying to free inode 0 or nonexistant inode") && inodeMap == old(inodeMap)
      ensures 1 <= num <= ninodes && !Present(old(inodeMap), num) ==>
        num < 8 * BITS && st == Panic("nonexistent imap in superblock") && inodeMap == old(inodeMap)
      ensures 1 <= num <= ninodes && Present(old(inodeMap), num) ==>
        st == Done && wasClear == !BitAt(old(inodeMap), num) && inodeMap == Put(old(inodeMap), num, false)
    {
      if num < 1 || num > ninodes {
        return Panic("trying to free inode 0 or nonexistant inode"), false;
      }
      if inodeMap[num / BITS].None? {
        return Panic("nonexistent imap in superblock"), false;
      }
      wasClear := !BitAt(inodeMap, num);
      PutBits(inodeMap, num, false, 0);
      inodeMap := Put(inodeMap, num, false);
      st := Done;
    }

    /** bread of one of the device's blocks, as these files use it: a
        reference to the block's buffer when it can be read. */
    method Bread(b: int) returns (ok: bool)
      requires Valid()
      modifies this
      ensures Valid() && zoneMap == old(zoneMap) && inodeMap == old(inodeMap)
      ensures ok <==> b in old(cached)
      ensures ok ==> cached == old(cached)[b := old(cached[b]).(count := old(cached[b].count) + 1)]
      ensures !ok ==> cached == old(cached)
      ensures Contents(cached) == Contents(old(cached))
    {
      ok := b in cached;
      if ok {
        cached := cached[b := cached[b].(count := cached[b].count + 1)];
      }
    }

    /** A change to the data of a cached block: the buffer is marked dirty. */
    method SetData(b: int, data: seq<Byte>)
      requires Valid() && b in cached && |data| == BLOCK_SIZE
      modifies this
      ensures Valid() && zoneMap == old(zoneMap) && inodeMap == old(inodeMap)
      ensures cached == old(cached)[b := old(cached[b]).(dirt := true, data := data)]
    {
      cached := cached[b := cached[b].(dirt := true, data := data)];
    }

    /** brelse of a block's buffer: one reference less; a buffer without
        references panics. */
    method Brelse(b: int) returns (st: Status)
      requires Valid() && b in cached
      modifies this
      ensures Valid() && zoneMap == old(zoneMap) && inodeMap == old(inodeMap)
      ensures old(cached[b].count) == 0 ==> st == Panic("Trying to free free buffer") && cached == old(cached)
      ensures old(cached[b].count) != 0 ==>
        st == Done && cached == old(cached)[b := old(cached[b]).(count := old(cached[b].count) - 1)]
      ensures Contents(cached) == Contents(old(cached))
    {
      if cached[b].count == 0 {
        return Panic("Trying to free free buffer");
      }
      cached := cached[b := cached[b].(count := cached[b].count - 1)];
      st := Done;
    }
  }
}
