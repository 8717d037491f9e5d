/** Freeing the zones of an inode (fs/truncate.c). Each routine returns, as
    a ghost list, the block numbers it handed to free_block, in order; the
    functions below say which blocks those are, from the contents of the
    indirect blocks. */
module Truncate {
  import opened Util
  import opened FsDefs
  import opened Bitmap

  /** Nine zone numbers that fit i_zone's unsigned shorts. */
  predicate ZonesOk(zone: seq<int>)
  {
    |zone| == 9 && forall k :: 0 <= k < 9 ==> 0 <= zone[k] < 0x1_0000
  }

  lemma ContentsOfOk(c: map<int, Cached>)
    requires BlocksOk(c)
    ensures ContentsOk(Contents(c))
  {
  }

  /** The non-zero entries among the first n of an indirect block, in order. */
  function NonZero(data: seq<Byte>, n: int): seq<int>
    requires |data| == BLOCK_SIZE && 0 <= n <= 512
  {
    if n == 0 then [] else NonZero(data, n - 1) + (if Entry(data, n - 1) != 0 then [Entry(data, n - 1)] else [])
  }

  /** free_ind(dev, block): nothing for block 0; otherwise every non-zero
      entry of the block (when it can be read), then the block itself. */
  function IndFrees(c: map<int, seq<Byte>>, block: int): seq<int>
    requires ContentsOk(c)
  {
    if block == 0 then [] else (if block in c then NonZero(c[block], 512) else []) + [block]
  }

  /** free_ind of every non-zero entry among the first n of a double indirect block. */
  function DindFrom(c: map<int, seq<Byte>>, data: seq<Byte>, n: int): seq<int>
    requires ContentsOk(c) && |data| == BLOCK_SIZE && 0 <= n <= 512
  {
    if n == 0 then [] else DindFrom(c, data, n - 1) + (if Entry(data, n - 1) != 0 then IndFrees(c, Entry(data, n - 1)) else [])
  }

  /** free_dind(dev, block): nothing for block 0; otherwise free_ind of every
      non-zero entry (when the block can be read), then the block itself. */
  function DindFrees(c: map<int, seq<Byte>>, block: int): seq<int>
    requires ContentsOk(c)
  {
    if block == 0 then [] else (if block in c then DindFrom(c, c[block], 512) else []) + [block]
  }

  /** The non-zero zones among the first n direct ones. */
  function DirectFrees(zone: seq<int>, n: int): seq<int>
    requires |zone| == 9 && 0 <= n <= 7
  {
    if n == 0 then [] else DirectFrees(zone, n - 1) + (if zone[n - 1] != 0 then [zone[n - 1]] else [])
  }

  /** Everything truncate hands to free_block: the direct zones, then the
      indirect tree, then the double indirect tree. */
  function TruncFrees(c: map<int, seq<Byte>>, zone: seq<int>): seq<int>
    requires ContentsOk(c) && |zone| == 9
  {
    DirectFrees(zone, 7) + IndFrees(c, zone[7]) + DindFrees(c, zone[8])
  }

  /** Every block truncate frees is a non-zero block number taken from the
      inode or from an indirect block. */
  lemma {:induction false} NonZeroHasNoZero(data: seq<Byte>, n: int)
    requires |data| == BLOCK_SIZE && 0 <= n <= 512
    ensures forall x :: x in NonZero(data, n) ==> x != 0
  {
    if n > 0 {
      NonZeroHasNoZero(data, n - 1);
    }
  }

  lemma {:induction false} DindFromHasNoZero(c: map<int, seq<Byte>>, data: seq<Byte>, n: int)
    requires ContentsOk(c) && |data| == BLOCK_SIZE && 0 <= n <= 512
    ensures forall x :: x in DindFrom(c, data, n) ==> x != 0
  {
    if n > 0 {
      DindFromHasNoZero(c, data, n - 1);
      var e := Entry(data, n - 1);
      if e != 0 && e in c {
        NonZeroHasNoZero(c[e], 512);
      }
    }
  }

  lemma {:induction false} DirectFreesHasNoZero(zone: seq<int>, n: int)
    requires |zone| == 9 && 0 <= n <= 7
    ensures forall x :: x in DirectFrees(zone, n) ==> x != 0
  {
    if n > 0 {
      DirectFreesHasNoZero(zone, n - 1);
    }
  }

  /** truncate never hands block 0 (the "no block" mark) to free_block. */
  lemma TruncFreesHasNoZero(c: map<int, seq<Byte>>, zone: seq<int>)
    requires ContentsOk(c) && |zone| == 9
    ensures forall x :: x in TruncFrees(c, zone) ==> x != 0
  {
    DirectFreesHasNoZero(zone, 7);
    if zone[7] != 0 && zone[7] in c {
      NonZeroHasNoZero(c[zone[7]], 512);
    }
    if zone[8] != 0 && zone[8] in c {
      DindFromHasNoZero(c, c[zone[8]], 512);
    }
  }

  lemma {:induction false} DirectFreesOfEmpty(zone: seq<int>, n: int)
    requires |zone| == 9 && 0 <= n <= 7 && forall k :: 0 <= k < 9 ==> zone[k] == 0
    ensures DirectFrees(zone, n) == []
  {
    if n > 0 {
      DirectFreesOfEmpty(zone, n - 1);
    }
  }

  /** Truncating an inode that has no zones frees nothing. */
  lemma TruncFreesOfEmpty(c: map<int, seq<Byte>>, zone: seq<int>)
    requires ContentsOk(c) && |zone| == 9 && forall k :: 0 <= k < 9 ==> zone[k] == 0
    ensures TruncFrees(c, zone) == []
  {
    DirectFreesOfEmpty(zone, 7);
  }

  /** free_block as the routines below need it. */
  method Free(v: Volume, block: int) returns (st: Status)
    requires v.Valid()
    modifies v
    ensures v.Valid() && v.inodeMap == old(v.inodeMap) && Contents(v.cached) == Contents(old(v.cached))
  {
    st := v.FreeBlock(block);
  }

  /** bread as the routines below need it: the block's contents when it is cached. */
  method Read(v: Volume, block: int) returns (ok: bool, data: seq<Byte>)
    requires v.Valid()
    modifies v
    ensures v.Valid() && v.inodeMap == old(v.inodeMap) && Contents(v.cached) == Contents(old(v.cached))
    ensures ok <==> block in Contents(old(v.cached))
    ensures ok ==> data == Contents(old(v.cached))[block] && |data| == BLOCK_SIZE
  {
    ok := v.Bread(block);
    data := [];
    if ok {
      data := v.cached[block].data;
    }
  }

  /** brelse as the routines below need it. */
  method Release(v: Volume, block: int) returns (st: Status)
    requires v.Valid() && block in Contents(v.cached)
    modifies v
    ensures v.Valid() && v.inodeMap == old(v.inodeMap) && Contents(v.cached) == Contents(old(v.cached))
  {
    st := v.Brelse(block);
  }

  /** The loop of free_ind: free_block of every non-zero entry, in order. */
  method FreeEntries(v: Volume, data: seq<Byte>) returns (st: Status, ghost calls: seq<int>)
    requires v.Valid() && |data| == BLOCK_SIZE
    modifies v
    ensures v.Valid() && v.inodeMap == old(v.inodeMap) && Contents(v.cached) == Contents(old(v.cached))
    ensures st == Done ==> calls == NonZero(data, 512)
  {
    ghost var c := Contents(v.cached);
    st, calls := Done, [];
    var i := 0;
    while i < 512
      invariant 0 <= i <= 512 && v.Valid() && v.inodeMap == old(v.inodeMap) && Contents(v.cached) == c
      invariant calls == NonZero(data, i)
    {
      var e := Entry(data, i);
      if e != 0 {
        st := Free(v, e);
        if st != Done {
          return;
        }
        calls := calls + [e];
      }
      i := i + 1;
    }
  }

  /** free_ind: see IndFrees. */
  method FreeInd(v: Volume, block: int) returns (st: Status, ghost calls: seq<int>)
    requires v.Valid()
    modifies v
    ensures v.Valid() && v.inodeMap == old(v.inodeMap)
    ensures Contents(v.cached) == Contents(old(v.cached))
    ensures block == 0 ==> st == Done && calls == [] && v.zoneMap == old(v.zoneMap) && v.cached == old(v.cached)
    ensures ContentsOk(Contents(old(v.cached))) && (st == Done ==> calls == IndFrees(Contents(old(v.cached)), block))
  {
    ghost var c := Contents(v.cached);
    ContentsOfOk(v.cached);
    calls := [];
    if block == 0 {
      return Done, calls;
    }
    var ok, data := Read(v, block);
    if ok {
      st, calls := FreeEntries(v, data);
      if st != Done {
        return;
      }
      st := Release(v, block);
      if st != Done {
        return;
      }
    }
    st := Free(v, block);
    calls := calls + [block];
  }

  /** The loop of free_dind: free_ind of every non-zero entry, in order. */
  method FreeIndirects(v: Volume, data: seq<Byte>) returns (st: Status, ghost calls: seq<int>)
    requires v.Valid() && |data| == BLOCK_SIZE
    modifies v
    ensures v.Valid() && v.inodeMap == old(v.inodeMap) && Contents(v.cached) == Contents(old(v.cached))
    ensures ContentsOk(Contents(old(v.cached))) && (st == Done ==> calls == DindFrom(Contents(old(v.cached)), data, 512))
  {
    ghost var c := Contents(v.cached);
    ContentsOfOk(v.cached);
    st, calls := Done, [];
    var i := 0;
    while i < 512
      invariant 0 <= i <= 512 && v.Valid() && v.inodeMap == old(v.inodeMap) && Contents(v.cached) == c
      invariant calls == DindFrom(c, data, i)
    {
      var e := Entry(data, i);
      if e != 0 {
        ghost var more;
        st, more := FreeInd(v, e);
        if st != Done {
          return;
        }
        calls := calls + more;
      }
      i := i + 1;
    }
  }

  /** free_dind: see DindFrees. */
  method FreeDind(v: Volume, block: int) returns (st: Status, ghost calls: seq<int>)
    requires v.Valid()
    modifies v
    ensures v.Valid() && v.inodeMap == old(v.inodeMap)
    ensures Contents(v.cached) == Contents(old(v.cached))
    ensures block == 0 ==> st == Done && calls == [] && v.zoneMap == old(v.zoneMap) && v.cached == old(v.cached)
    ensures ContentsOk(Contents(old(v.cached))) && (st == Done ==> calls == DindFrees(Contents(old(v.cached)), block))
  {
    ghost var c := Contents(v.cached);
    ContentsOfOk(v.cached);
    calls := [];
    if block == 0 {
      return Done, calls;
    }
    var ok, data := Read(v, block);
    if ok {
      st, calls := FreeIndirects(v, data);
      if st != Done {
        return;
      }
      st := Release(v, block);
      if st != Done {
        return;
      }
    }
    st := Free(v, block);
    calls := calls + [block];
  }

  /** The first loop of truncate: free_block of every non-zero direct zone, in order. */
  method FreeDirect(v: Volume, zone: seq<int>) returns (st: Status, ghost calls: seq<int>)
    requires v.Valid() && |zone| == 9
    modifies v
    ensures v.Valid() && v.inodeMap == old(v.inodeMap) && Contents(v.cached) == Contents(old(v.cached))
    ensures st == Done ==> calls == DirectFrees(zone, 7)
  {
    ghost var c := Contents(v.cached);
    st, calls := Done, [];
    var i := 0;
    while i < 7
      invariant 0 <= i <= 7 && v.Valid() && v.inodeMap == old(v.inodeMap) && Contents(v.cached) == c
      invariant calls == DirectFrees(zone, i)
    {
      if zone[i] != 0 {
        st := Free(v, zone[i]);
        if st != Done {
          return;
        }
        calls := calls + [zone[i]];
      }
      i := i + 1;
    }
  }

  /** truncate(inode): a no-op unless the inode is a regular file or a
      directory; otherwise it frees the direct zones, then the indirect and
      the double indirect tree, and leaves the inode with all nine zones 0,
      size 0, dirty and with both times set to `now`. */
  method Truncate(v: Volume, inode: MInode, now: int) returns (st: Status, r: MInode, ghost calls: seq<int>)
    requires v.Valid() && ZonesOk(inode.zone)
    modifies v
    ensures v.Valid() && v.inodeMap == old(v.inodeMap)
    ensures !(IsReg(inode.mode) || IsDir(inode.mode)) ==>
      st == Done && r == inode && calls == [] && v.zoneMap == old(v.zoneMap) && v.cached == old(v.cached)
    ensures ContentsOk(Contents(old(v.cached)))
    ensures (IsReg(inode.mode) || IsDir(inode.mode)) && st == Done ==>
      calls == TruncFrees(Contents(old(v.cached)), inode.zone) &&
      r == inode.(zone := [0, 0, 0, 0, 0, 0, 0, 0, 0], size := 0, dirt := true, mtime := now, ctime := now)
  {
    ghost var c := Contents(v.cached);
    ContentsOfOk(v.cached);
    r, calls := inode, [];
    if !(IsReg(inode.mode) || IsDir(inode.mode)) {
      return Done, r, calls;
    }
    ghost var direct, ind, dind;
    st, direct := FreeDirect(v, inode.zone);
    if st != Done {
      return;
    }
    st, ind := FreeInd(v, inode.zone[7]);
    if st != Done {
      return;
    }
    st, dind := FreeDind(v, inode.zone[8]);
    if st != Done {
      return;
    }
    calls := direct + ind + dind;
    r := inode.(zone := [0, 0, 0, 0, 0, 0, 0, 0, 0], size := 0, dirt := true, mtime := now, ctime := now);
  }
}
