/** Reads and writes of regular files and directories through their zones
    (fs/file_dev.c). Byte pos of a file is byte pos & 1023 of its logical
    block pos >> 10, which bmap maps to a zone of the device; zone 0 is a
    hole, read as zeros. As in block_dev.c, a transfer is cut into chunks
    that each stay inside one block. */
module FileDev {
  import opened Util
  import opened FsDefs
  import opened Errno
  import opened Bits
  import opened Bitmap
  import opened Truncate
  import opened InodeMap
  import BlockDev

  /** The zone bmap gives for each logical block of a file whose zones are
      zone: a map over blocks 0 .. MAX_BLOCK - 1, on any other block of
      which bmap panics. */
  ghost function Layout(c: map<int, seq<Byte>>, zone: seq<int>): (m: map<int, int>)
    requires ContentsOk(c) && |zone| == 9
    ensures forall b :: b in m <==> 0 <= b < MAX_BLOCK
    ensures forall b :: b in m ==> Bmap(c, zone, b) == Mapped(m[b])
  {
    map b | 0 <= b < MAX_BLOCK :: Bmap(c, zone, b).zone
  }

  /** Logical block b is mapped, to a hole or to a zone whose block bread
      can deliver. */
  predicate Present(c: map<int, seq<Byte>>, m: map<int, int>, b: int)
  {
    b in m && (m[b] == 0 || m[b] in c)
  }

  /** Byte p of the file can be read: its block is mapped, to a hole or to
      a zone whose block bread can deliver. */
  predicate Readable(c: map<int, seq<Byte>>, m: map<int, int>, p: int)
  {
    Present(c, m, p / BLOCK_SIZE)
  }

  /** Byte p of the file: 0 in a hole, else byte p & 1023 of its zone. */
  function FileByte(c: map<int, seq<Byte>>, m: map<int, int>, p: int): Byte
    requires ContentsOk(c) && Readable(c, m, p)
  {
    var z := m[p / BLOCK_SIZE];
    if z == 0 then 0 else c[z][p % BLOCK_SIZE]
  }

  /** The bytes d are the file's bytes from position pos on. */
  predicate Agrees(c: map<int, seq<Byte>>, m: map<int, int>, pos: int, d: seq<Byte>)
    requires ContentsOk(c)
  {
    forall p :: pos <= p < pos + |d| ==> Readable(c, m, p) && d[p - pos] == FileByte(c, m, p)
  }

  /** What a read from pos delivers: the bytes, then Done or bmap's panic. */
  datatype Run = Run(data: seq<Byte>, st: Status)

  /** The k bytes of zone z from offset off, or k zeros for a hole. */
  function ChunkBytes(c: map<int, seq<Byte>>, z: int, off: int, k: int): (b: seq<Byte>)
    requires ContentsOk(c) && (z == 0 || z in c) && 0 <= off && 0 <= k && off + k <= BLOCK_SIZE
    ensures |b| == k
  {
    if z == 0 then seq(k, _ => 0) else c[z][off..off + k]
  }

  /** What file_read transfers from offset off of logical block block with
      left bytes wanted, for the layout m: chunk after chunk, each to the
      end of its block or of the request, until left is used up, a zone
      cannot be read, or bmap panics on a block beyond the layout. */
  function ReadRun(c: map<int, seq<Byte>>, m: map<int, int>, block: int, off: int, left: int): (r: Run)
    requires ContentsOk(c) && 0 <= off < BLOCK_SIZE
    ensures left <= 0 ==> r == Run([], Done)
    ensures left > 0 ==> |r.data| <= left
    decreases left
  {
    if left <= 0 then Run([], Done)
    else if block !in m then Run([], Panic("_bmap: block>big"))
    else if !Present(c, m, block) then Run([], Done)
    else
      var k := BlockDev.Chunk(off, left);
      var rest := ReadRun(c, m, block + 1, 0, left - k);
      Run(ChunkBytes(c, m[block], off, k) + rest.data, rest.st)
  }

  /** A chunk read from a present block comes first in ReadRun. */
  lemma RunStep(c: map<int, seq<Byte>>, m: map<int, int>, block: int, off: int, left: int, k: int, left': int)
    requires ContentsOk(c) && 0 <= off < BLOCK_SIZE && left > 0 && Present(c, m, block)
    requires k == BlockDev.Chunk(off, left) && left' == left - k
    ensures ReadRun(c, m, block, off, left).data == ChunkBytes(c, m[block], off, k) + ReadRun(c, m, block + 1, 0, left').data
    ensures ReadRun(c, m, block, off, left).st == ReadRun(c, m, block + 1, 0, left').st
  {
  }

  /** The bytes of a chunk are the file's bytes at its positions. */
  lemma ChunkIsFile(c: map<int, seq<Byte>>, m: map<int, int>, block: int, off: int, k: int)
    requires ContentsOk(c) && Present(c, m, block) && 0 <= off && 0 <= k && off + k <= BLOCK_SIZE
    ensures Agrees(c, m, BLOCK_SIZE * block + off, ChunkBytes(c, m[block], off, k))
  {
    var pos := BLOCK_SIZE * block + off;
    forall p | pos <= p < pos + k
      ensures Readable(c, m, p) && ChunkBytes(c, m[block], off, k)[p - pos] == FileByte(c, m, p)
    {
      BlockDev.Split(p, block, off + (p - pos));
    }
  }

  /** Bytes that agree with the file from pos, followed by bytes that agree
      with it from where they end, agree with it from pos. */
  lemma Joined(c: map<int, seq<Byte>>, m: map<int, int>, pos: int, head: seq<Byte>, rest: seq<Byte>)
    requires ContentsOk(c)
    requires Agrees(c, m, pos, head) && Agrees(c, m, pos + |head|, rest)
    ensures Agrees(c, m, pos, head + rest)
  {
    forall p | pos <= p < pos + |head + rest|
      ensures Readable(c, m, p) && (head + rest)[p - pos] == FileByte(c, m, p)
    {
      if p >= pos + |head| {
        assert (head + rest)[p - pos] == rest[p - (pos + |head|)];
      }
    }
  }

  /** The bytes ReadRun delivers are the file's bytes from position
      BLOCK_SIZE * block + off onwards. */
  lemma {:induction false} RunBytes(c: map<int, seq<Byte>>, m: map<int, int>, block: int, off: int, left: int)
    requires ContentsOk(c) && 0 <= off < BLOCK_SIZE
    ensures Agrees(c, m, BLOCK_SIZE * block + off, ReadRun(c, m, block, off, left).data)
    decreases left
  {
    if left > 0 && Present(c, m, block) {
      var k := BlockDev.Chunk(off, left);
      RunBytes(c, m, block + 1, 0, left - k);
      RunBytesStep(c, m, block, off, left, k);
    }
  }

  /** One step of RunBytes: the chunk of block, then the rest of the run. */
  lemma RunBytesStep(c: map<int, seq<Byte>>, m: map<int, int>, block: int, off: int, left: int, k: int)
    requires ContentsOk(c) && 0 <= off < BLOCK_SIZE && left > 0 && Present(c, m, block) && k == BlockDev.Chunk(off, left)
    requires Agrees(c, m, BLOCK_SIZE * (block + 1), ReadRun(c, m, block + 1, 0, left - k).data)
    ensures Agrees(c, m, BLOCK_SIZE * block + off, ReadRun(c, m, block, off, left).data)
  {
    RunStep(c, m, block, off, left, k, left - k);
    ChunkIsFile(c, m, block, off, k);
    var head := ChunkBytes(c, m[block], off, k);
    var rest := ReadRun(c, m, block + 1, 0, left - k).data;
    if left - k > 0 {
      NextBlockStart(block, off, k);
      Joined(c, m, BLOCK_SIZE * block + off, head, rest);
    } else {
      assert head + rest == head;
    }
  }

  /** A chunk that runs to the end of its block ends where the next block starts. */
  lemma NextBlockStart(block: int, off: int, k: int)
    requires off + k == BLOCK_SIZE
    ensures BLOCK_SIZE * (block + 1) == BLOCK_SIZE * block + off + k
  {
  }

  /** A read that stops short without a panic stops at a byte whose block
      is mapped but cannot be read; a panic comes from a block outside the
      layout. */
  lemma {:induction false} RunStops(c: map<int, seq<Byte>>, m: map<int, int>, block: int, off: int, left: int)
    requires ContentsOk(c) && 0 <= off < BLOCK_SIZE
    ensures var r := ReadRun(c, m, block, off, left);
            var p := BLOCK_SIZE * block + off + |r.data|;
            (r.st == Done && 0 < left && |r.data| < left ==> p / BLOCK_SIZE in m && !Readable(c, m, p)) &&
            (r.st != Done ==> r.st == Panic("_bmap: block>big") && p / BLOCK_SIZE !in m)
    decreases left
  {
    if left > 0 {
      if Present(c, m, block) {
        var k := BlockDev.Chunk(off, left);
        RunStops(c, m, block + 1, 0, left - k);
        RunStep(c, m, block, off, left, k, left - k);
        var r := ReadRun(c, m, block + 1, 0, left - k);
        if |r.data| < left - k || r.st != Done {
          assert BLOCK_SIZE * (block + 1) + 0 + |r.data| == BLOCK_SIZE * block + off + k + |r.data|;
        }
      } else {
        BlockDev.Split(BLOCK_SIZE * block + off, block, off);
      }
    }
  }

  /** When every byte of the range can be read, file_read transfers all of it. */
  lemma {:induction false} AllReadable(c: map<int, seq<Byte>>, m: map<int, int>, block: int, off: int, left: int)
    requires ContentsOk(c) && 0 <= off < BLOCK_SIZE && left >= 0
    requires var pos := BLOCK_SIZE * block + off; forall p :: pos <= p < pos + left ==> Readable(c, m, p)
    ensures |ReadRun(c, m, block, off, left).data| == left && ReadRun(c, m, block, off, left).st == Done
    decreases left
  {
    if left > 0 {
      var k := BlockDev.Chunk(off, left);
      var pos := BLOCK_SIZE * block + off;
      assert Readable(c, m, pos);
      BlockDev.Split(pos, block, off);
      assert left - k > 0 ==> BLOCK_SIZE * (block + 1) == pos + k;
      AllReadable(c, m, block + 1, 0, left - k);
    }
  }

  /** A file no zone of which is allocated reads as zeros up to the double
      indirect limit: every block is a hole. */
  lemma HoleReadsZero(c: map<int, seq<Byte>>, zone: seq<int>, p: int)
    requires ContentsOk(c) && |zone| == 9 && forall k :: 0 <= k < 9 ==> zone[k] == 0
    requires 0 <= p < MAX_BLOCK * BLOCK_SIZE
    ensures Readable(c, Layout(c, zone), p) && FileByte(c, Layout(c, zone), p) == 0
  {
    var b := p / BLOCK_SIZE;
    assert 0 <= b < MAX_BLOCK;
    var path := PathOf(b);
    assert Bmap(c, zone, b) == Mapped(0) by {
      assert path.Direct? || path.Single? || path.Double?;
    }
  }

  /** The c zero bytes file_read hands the user for a hole. */
  method Zeros(c: int) returns (out: seq<Byte>)
    requires c >= 0
    ensures |out| == c && forall j :: 0 <= j < c ==> out[j] == 0
  {
    out := [];
    while |out| < c
      invariant |out| <= c && forall j :: 0 <= j < |out| ==> out[j] == 0
    {
      out := out + [0];
    }
  }

  /** One chunk of file_read: for zone nr, bread, copy chars bytes from
      offset off and brelse; for a hole, chars zeros. ok is false when the
      bread fails. The buffer's count goes up and down again, so the cache
      is as it was. */
  method ReadChunk(v: Volume, c: map<int, seq<Byte>>, nr: int, off: int, chars: int) returns (ok: bool, bytes: seq<Byte>)
    requires v.Valid() && c == Contents(v.cached) && ContentsOk(c) && 0 <= off && 1 <= chars && off + chars <= BLOCK_SIZE
    modifies v
    ensures v.Valid() && v.cached == old(v.cached) && v.zoneMap == old(v.zoneMap) && v.inodeMap == old(v.inodeMap)
    ensures ok <==> nr == 0 || nr in c
    ensures ok ==> bytes == ChunkBytes(c, nr, off, chars)
  {
    if nr == 0 {
      ok := true;
      bytes := Zeros(chars);
      return;
    }
    ok := v.Bread(nr);
    if !ok {
      return ok, [];
    }
    bytes := BlockDev.Device.CopyOut(v.cached[nr].data, off, chars);
    var released := v.Brelse(nr);
    assert v.cached == old(v.cached);
  }

  /** The loop of file_read from position pos0: chunk after chunk while
      bytes are wanted; a zone that cannot be read ends it, a block bmap
      panics on ends the call. What it delivers is ReadRun's. */
  method ReadLoop(v: Volume, c: map<int, seq<Byte>>, zone: seq<int>, pos0: int, count: int)
    returns (st: Status, out: seq<Byte>)
    requires v.Valid() && c == Contents(v.cached) && ContentsOk(c) && |zone| == 9 && pos0 >= 0
    modifies v
    ensures v.Valid() && v.cached == old(v.cached) && v.zoneMap == old(v.zoneMap) && v.inodeMap == old(v.inodeMap)
    ensures st == ReadRun(c, Layout(c, zone), pos0 / BLOCK_SIZE, pos0 % BLOCK_SIZE, count).st
    ensures st == Done ==> out == ReadRun(c, Layout(c, zone), pos0 / BLOCK_SIZE, pos0 % BLOCK_SIZE, count).data
  {
    ghost var lay := Layout(c, zone);
    out := [];
    var left := count;
    var block := pos0 / BLOCK_SIZE;
    var offset := pos0 % BLOCK_SIZE;
    st := Done;
    while left > 0
      invariant v.Valid() && v.cached == old(v.cached) && v.zoneMap == old(v.zoneMap) && v.inodeMap == old(v.inodeMap)
      invariant st == Done && block >= 0 && 0 <= offset < BLOCK_SIZE
      invariant ReadRun(c, lay, pos0 / BLOCK_SIZE, pos0 % BLOCK_SIZE, count).data == out + ReadRun(c, lay, block, offset, left).data
      invariant ReadRun(c, lay, pos0 / BLOCK_SIZE, pos0 % BLOCK_SIZE, count).st == ReadRun(c, lay, block, offset, left).st
    {
      var stop, bytes;
      st, stop, bytes := ReadOne(v, c, zone, lay, block, offset, left);
      if st != Done {
        return st, out;
      }
      if stop {
        assert out + ReadRun(c, lay, block, offset, left).data == out;
        break;
      }
      ghost var rest := ReadRun(c, lay, block + 1, 0, left - |bytes|);
      assert out + (bytes + rest.data) == (out + bytes) + rest.data;
      block, offset := block + 1, 0;
      left := left - |bytes|;
      out := out + bytes;
    }
  }

  /** One turn of file_read's loop: bmap, then the chunk of the block. A
      panic or an unreadable zone stops the loop; otherwise the bytes read
      are the head of ReadRun and the rest of the run goes on from the next
      block. */
  method ReadOne(v: Volume, c: map<int, seq<Byte>>, zone: seq<int>, ghost lay: map<int, int>, block: int, offset: int, left: int)
    returns (st: Status, stop: bool, bytes: seq<Byte>)
    requires v.Valid() && c == Contents(v.cached) && ContentsOk(c) && |zone| == 9 && lay == Layout(c, zone)
    requires block >= 0 && 0 <= offset < BLOCK_SIZE && left > 0
    modifies v
    ensures v.Valid() && v.cached == old(v.cached) && v.zoneMap == old(v.zoneMap) && v.inodeMap == old(v.inodeMap)
    ensures st != Done ==> stop && st == ReadRun(c, lay, block, offset, left).st
    ensures st == Done && stop ==> ReadRun(c, lay, block, offset, left) == Run([], Done)
    ensures !stop ==> (st == Done && |bytes| == BlockDev.Chunk(offset, left) &&
              ReadRun(c, lay, block, offset, left).data == bytes + ReadRun(c, lay, block + 1, 0, left - |bytes|).data &&
              ReadRun(c, lay, block, offset, left).st == ReadRun(c, lay, block + 1, 0, left - |bytes|).st)
  {
    var m := Bmap(c, zone, block);
    BmapPanics(c, zone, block);
    if m.BmapPanic? {
      return Panic(m.msg), true, [];
    }
    assert block in lay && lay[block] == m.zone;
    var nr := m.zone;
    var chars := BlockDev.Chunk(offset, left);
    var ok;
    ok, bytes := ReadChunk(v, c, nr, offset, chars);
    if !ok {
      return Done, true, bytes;
    }
    RunStep(c, lay, block, offset, left, chars, left - chars);
    st, stop := Done, false;
  }

  /** file_read(inode, filp, buf, count): out is what reaches buf, f' the
      file with its new f_pos and inode' the inode with i_atime set. The
      bytes read are those of ReadRun on the file's Layout, which are the
      file's bytes from pos onwards; the result is their number, or -ERROR
      when none could be read. Every bread is matched by a brelse, so the
      cache is as it was. */
  method FileRead(v: Volume, inode: MInode, f: File, count: int, now: int)
    returns (st: Status, r: int, out: seq<Byte>, inode': MInode, f': File)
    requires v.Valid() && |inode.zone| == 9 && f.pos >= 0
    modifies v
    ensures v.Valid() && v.cached == old(v.cached) && v.zoneMap == old(v.zoneMap) && v.inodeMap == old(v.inodeMap)
    ensures ContentsOk(Contents(v.cached))
    ensures count <= 0 ==> st == Done && r == 0 && out == [] && inode' == inode && f' == f
    ensures count > 0 ==>
              var run := ReadRun(Contents(v.cached), Layout(Contents(v.cached), inode.zone), f.pos / BLOCK_SIZE, f.pos % BLOCK_SIZE, count);
              st == run.st &&
              (st == Done ==>
                 out == run.data && r == (if |out| != 0 then |out| else -ERROR) &&
                 f' == f.(pos := f.pos + |out|) && inode' == inode.(atime := now))
  {
    ContentsOfOk(v.cached);
    inode', f', out := inode, f, [];
    if count <= 0 {
      return Done, 0, out, inode', f';
    }
    st, out := ReadLoop(v, Contents(v.cached), inode.zone, f.pos, count);
    if st != Done {
      return st, -1, out, inode', f';
    }
    f' := f.(pos := f.pos + |out|);
    inode' := inode.(atime := now);
    r := if |out| != 0 then |out| else -ERROR;
  }

  /** O_APPEND is set in f_flags. */
  predicate Appends(f: File)
    requires f.flags >= 0
  {
    And(f.flags, O_APPEND) != 0
  }

  /** Where file_write starts: at i_size with O_APPEND, else at f_pos. */
  function Start(inode: MInode, f: File): int
    requires f.flags >= 0
  {
    if Appends(f) then inode.size else f.pos
  }

  /** One chunk of file_write into zone block: bread, the buffer marked
      dirty and src copied in at offset off, then brelse. ok is false, and
      nothing changes, when the bread fails. */
  method WriteChunk(v: Volume, block: int, off: int, src: seq<Byte>) returns (ok: bool)
    requires v.Valid() && 0 <= off && off + |src| <= BLOCK_SIZE
    modifies v
    ensures v.Valid() && v.zoneMap == old(v.zoneMap) && v.inodeMap == old(v.inodeMap)
    ensures ok <==> block in old(v.cached)
    ensures !ok ==> v.cached == old(v.cached)
    ensures ok ==> v.cached == old(v.cached)[block := old(v.cached[block]).(dirt := true,
                                  data := BlockDev.Spliced(old(v.cached[block].data), off, src))]
  {
    ok := v.Bread(block);
    if !ok {
      return;
    }
    var data := BlockDev.Device.CopyIn(v.cached[block].data, off, src);
    v.SetData(block, data);
    var released := v.Brelse(block);
  }

  /** The fields of an inode that file_write's loop leaves alone: all but
      the zones, i_size, i_ctime and i_dirt. */
  function Kept(i: MInode): MInode
  {
    i.(zone := [], size := 0, ctime := 0, dirt := false)
  }

  /** inode' is inode with zones filled in where it had none, and perhaps
      a new i_size, i_ctime and i_dirt. */
  predicate Fills(inode: MInode, inode': MInode)
  {
    ZonesOk(inode'.zone) && |inode.zone| == 9 && Kept(inode') == Kept(inode) &&
    forall k :: 0 <= k < 9 && inode'.zone[k] != inode.zone[k] ==> inode.zone[k] == 0
  }

  lemma FillsTrans(i0: MInode, i1: MInode, i2: MInode)
    requires Fills(i0, i1) && Fills(i1, i2)
    ensures Fills(i0, i2)
  {
  }

  /** One pass of file_write's loop at position pos with i of count bytes
      written: create_block for the block holding pos, then the chunk into
      it. c is the chunk's length, 0 when create_block yields 0 or the bread
      fails; r is the inode as create_block leaves it. */
  method WriteStep(v: Volume, inode: MInode, buf: seq<Byte>, i: int, count: int, pos: int, now: int)
    returns (st: Status, c: int, r: MInode)
    requires v.Valid() && ZonesOk(inode.zone) && pos >= 0 && 0 <= i < count <= |buf|
    modifies v
    ensures v.Valid() && v.inodeMap == old(v.inodeMap) && Grows(old(v.zoneMap), v.zoneMap)
    ensures Fills(inode, r) && r.size == inode.size && (inode.dirt ==> r.dirt)
    ensures st == Done ==> 0 <= c <= count - i
  {
    var block;
    st, r, block := CreateBlock(v, inode, pos / BLOCK_SIZE, now);
    c := 0;
    if st != Done {
      return st, c, inode;
    }
    if block == 0 {
      return;
    }
    c := PutChunk(v, block, buf, i, count, pos);
  }

  /** The copy half of a pass of file_write's loop, into zone block: the
      chunk's length c, 0 when the bread fails. */
  method PutChunk(v: Volume, block: int, buf: seq<Byte>, i: int, count: int, pos: int) returns (c: int)
    requires v.Valid() && pos >= 0 && 0 <= i < count <= |buf|
    modifies v
    ensures v.Valid() && v.inodeMap == old(v.inodeMap) && v.zoneMap == old(v.zoneMap)
    ensures 0 <= c <= count - i
    ensures c != 0 <==> block in old(v.cached)
    ensures c != 0 ==> c == BlockDev.Chunk(pos % BLOCK_SIZE, count - i)
  {
    var k := BlockDev.Chunk(pos % BLOCK_SIZE, count - i);
    var ok := WriteChunk(v, block, pos % BLOCK_SIZE, buf[i..i + k]);
    c := if ok then k else 0;
  }

  /** The loop of file_write from position pos0: i bytes are written, at
      most count, and inode' is the inode with the zones create_block
      filled in and i_size grown to pos0 + i when that is larger. */
  method WriteLoop(v: Volume, inode: MInode, buf: seq<Byte>, count: int, pos0: int, now: int)
    returns (st: Status, i: int, inode': MInode)
    requires v.Valid() && ZonesOk(inode.zone) && pos0 >= 0 && count <= |buf|
    modifies v
    ensures v.Valid() && v.inodeMap == old(v.inodeMap) && Grows(old(v.zoneMap), v.zoneMap)
    ensures Fills(inode, inode')
    ensures st == Done ==>
              0 <= i <= (if count > 0 then count else 0) &&
              inode'.size == (if i > 0 && pos0 + i > inode.size then pos0 + i else inode.size) &&
              (i > 0 && pos0 + i > inode.size ==> inode'.dirt)
  {
    i := 0;
    inode' := inode;
    st := Done;
    while i < count
      invariant v.Valid() && v.inodeMap == old(v.inodeMap) && Grows(old(v.zoneMap), v.zoneMap)
      invariant 0 <= i <= (if count > 0 then count else 0)
      invariant Fills(inode, inode')
      invariant inode'.size == (if i > 0 && pos0 + i > inode.size then pos0 + i else inode.size)
      invariant i > 0 && pos0 + i > inode.size ==> inode'.dirt
    {
      var c;
      ghost var m, prev := v.zoneMap, inode';
      st, c, inode' := WriteStep(v, inode', buf, i, count, pos0 + i, now);
      GrowsTrans(old(v.zoneMap), m, v.zoneMap);
      FillsTrans(inode, prev, inode');
      if st != Done || c == 0 {
        return;
      }
      if pos0 + i + c > inode'.size {
        inode' := inode'.(size := pos0 + i + c, dirt := true);
      }
      i := i + c;
    }
  }

  /** file_write(inode, filp, buf, count): buf holds the user's bytes. The
      chunks go to the blocks create_block finds or allocates, from Start
      on, until count bytes are written, create_block yields 0 or a bread
      fails. The result is the number written, or -1 when none was. i_size
      grows to the end of what was written, i_mtime is set, and without
      O_APPEND f_pos moves to that end and i_ctime is set. Zones are only
      ever allocated into zero entries, and zone bits are only ever set. */
  method FileWrite(v: Volume, inode: MInode, f: File, buf: seq<Byte>, count: int, now: int)
    returns (st: Status, r: int, inode': MInode, f': File)
    requires v.Valid() && ZonesOk(inode.zone) && inode.size >= 0 && f.pos >= 0 && f.flags >= 0 && count <= |buf|
    modifies v
    ensures v.Valid() && v.inodeMap == old(v.inodeMap) && Grows(old(v.zoneMap), v.zoneMap)
    ensures ZonesOk(inode'.zone) && forall k :: 0 <= k < 9 && inode'.zone[k] != inode.zone[k] ==> inode.zone[k] == 0
    ensures st == Done ==>
              var start, n := Start(inode, f), if r == -1 then 0 else r;
              (r == -1 || 0 < r <= count) &&
              inode' == inode.(zone := inode'.zone, size := inode'.size, mtime := now, ctime := inode'.ctime, dirt := inode'.dirt) &&
              inode'.size == (if n > 0 && start + n > inode.size then start + n else inode.size) &&
              (n > 0 && start + n > inode.size ==> inode'.dirt) &&
              (Appends(f) ==> f' == f) &&
              (!Appends(f) ==> f' == f.(pos := start + n) && inode'.ctime == now)
  {
    var append := Appends(f);
    var pos := if append then inode.size else f.pos;
    var i;
    f' := f;
    st, i, inode' := WriteLoop(v, inode, buf, count, pos, now);
    if st != Done {
      return st, -1, inode', f';
    }
    inode' := inode'.(mtime := now);
    if !append {
      f' := f.(pos := pos + i);
      inode' := inode'.(ctime := now);
    }
    r := if i != 0 then i else -1;
  }
}
