/** Raw reads and writes of a block device through the buffer cache
    (fs/block_dev.c). The device is seen as the contents of the blocks that
    breada can bring up to date; a block outside that map is one whose read
    fails. A transfer is cut into chunks that each stay inside one block:
    the first starts at *pos & 1023, later ones at 0. */
module BlockDev {
  import opened FsDefs
  import opened Errno
  import opened Bits

  /** The block holding byte p of the device can be read. */
  predicate Present(blocks: map<int, seq<Byte>>, p: int)
  {
    p / BLOCK_SIZE in blocks
  }

  /** Byte p of the device: byte p & 1023 of block p >> 10. */
  function DevByte(blocks: map<int, seq<Byte>>, p: int): Byte
    requires ContentsOk(blocks) && Present(blocks, p)
  {
    blocks[p / BLOCK_SIZE][p % BLOCK_SIZE]
  }

  /** The length of the chunk that starts at offset off with count bytes
      still to go: what is left of the block, or count if that is less. */
  function Chunk(off: int, count: int): (c: int)
    requires 0 <= off < BLOCK_SIZE && count > 0
    ensures 1 <= c <= count && off + c <= BLOCK_SIZE
    ensures c == count || c == BLOCK_SIZE - off
  {
    if BLOCK_SIZE - off > count then count else BLOCK_SIZE - off
  }

  /** Bytes p .. p + j - 1 lie in one block when j stays within it. */
  lemma InBlock(p: int, j: int)
    requires 0 <= j < BLOCK_SIZE - p % BLOCK_SIZE
    ensures (p + j) / BLOCK_SIZE == p / BLOCK_SIZE && (p + j) % BLOCK_SIZE == p % BLOCK_SIZE + j
  {
    DivIs(p + j, BLOCK_SIZE, p / BLOCK_SIZE, p % BLOCK_SIZE + j);
  }

  /** *pos >> 10 and *pos & 1023 split pos into block and offset. */
  lemma Split(p: int, block: int, offset: int)
    requires p == BLOCK_SIZE * block + offset && 0 <= offset < BLOCK_SIZE
    ensures p / BLOCK_SIZE == block && p % BLOCK_SIZE == offset
  {
    DivIs(p, BLOCK_SIZE, block, offset);
  }

  /** How many bytes block_read transfers from position pos: chunk after
      chunk until count is used up or a block cannot be read. */
  function ReadSpan(blocks: map<int, seq<Byte>>, pos: int, count: int): (n: int)
    ensures 0 <= n && (count <= 0 ==> n == 0) && (count > 0 ==> n <= count)
    ensures forall p :: pos <= p < pos + n ==> Present(blocks, p)
    ensures 0 < count && n < count ==> !Present(blocks, pos + n)
    decreases count
  {
    if count <= 0 then 0
    else
      var c := Chunk(pos % BLOCK_SIZE, count);
      if !Present(blocks, pos) then 0
      else
        InBlockAll(blocks, pos, c);
        c + ReadSpan(blocks, pos + c, count - c)
  }

  /** Every byte of a chunk is in the chunk's first block. */
  lemma InBlockAll(blocks: map<int, seq<Byte>>, pos: int, c: int)
    requires 0 <= c <= BLOCK_SIZE - pos % BLOCK_SIZE && Present(blocks, pos)
    ensures forall p :: pos <= p < pos + c ==> Present(blocks, p)
  {
    forall p | pos <= p < pos + c
      ensures Present(blocks, p)
    {
      InBlock(pos, p - pos);
    }
  }

  /** How many bytes block_write transfers: like ReadSpan, except that a
      chunk covering a whole block needs no read (getblk never fails). */
  function WriteSpan(blocks: map<int, seq<Byte>>, pos: int, count: int): (n: int)
    ensures 0 <= n && (count <= 0 ==> n == 0) && (count > 0 ==> n <= count)
    ensures 0 < count && n < count ==>
              !Present(blocks, pos + n) && Chunk((pos + n) % BLOCK_SIZE, count - n) < BLOCK_SIZE
    decreases count
  {
    if count <= 0 then 0
    else
      var c := Chunk(pos % BLOCK_SIZE, count);
      if c != BLOCK_SIZE && !Present(blocks, pos) then 0
      else c + WriteSpan(blocks, pos + c, count - c)
  }

  /** The bytes pos .. pos + |data| - 1 of the device are data. */
  ghost predicate Holds(blocks: map<int, seq<Byte>>, pos: int, data: seq<Byte>)
    requires ContentsOk(blocks)
  {
    forall p :: pos <= p < pos + |data| ==> Present(blocks, p) && DevByte(blocks, p) == data[p - pos]
  }

  /** Outside lo .. hi - 1, the device b1 has the bytes of b0. */
  ghost predicate Keeps(b0: map<int, seq<Byte>>, b1: map<int, seq<Byte>>, lo: int, hi: int)
    requires ContentsOk(b0) && ContentsOk(b1)
  {
    forall p :: !(lo <= p < hi) ==>
      (Present(b1, p) <==> Present(b0, p)) && (Present(b0, p) ==> DevByte(b1, p) == DevByte(b0, p))
  }

  /** blk with src copied in at offset off. */
  function Spliced(blk: seq<Byte>, off: int, src: seq<Byte>): (r: seq<Byte>)
    requires |blk| == BLOCK_SIZE && 0 <= off && off + |src| <= BLOCK_SIZE
    ensures |r| == BLOCK_SIZE
  {
    seq(BLOCK_SIZE, k requires 0 <= k < BLOCK_SIZE => if off <= k < off + |src| then src[k - off] else blk[k])
  }

  /** Of two bytes in one block, the later has the larger offset. */
  lemma OffsetOrder(p: int, q: int)
    requires p / BLOCK_SIZE == q / BLOCK_SIZE
    ensures q - p == q % BLOCK_SIZE - p % BLOCK_SIZE
  {
  }

  /** Byte p after block blk is replaced by base with src spliced in at off. */
  lemma SplicedByte(b: map<int, seq<Byte>>, blk: int, base: seq<Byte>, off: int, src: seq<Byte>, p: int)
    requires ContentsOk(b) && |base| == BLOCK_SIZE && 0 <= off && off + |src| <= BLOCK_SIZE
    requires p / BLOCK_SIZE == blk || Present(b, p)
    ensures ContentsOk(b[blk := Spliced(base, off, src)]) && Present(b[blk := Spliced(base, off, src)], p)
    ensures DevByte(b[blk := Spliced(base, off, src)], p) ==
              if p / BLOCK_SIZE != blk then DevByte(b, p)
              else if off <= p % BLOCK_SIZE < off + |src| then src[p % BLOCK_SIZE - off]
              else base[p % BLOCK_SIZE]
  {
  }

  /** One chunk written into block pos >> 10 extends Holds by the chunk
      and keeps every other byte. */
  lemma WriteStep(b0: map<int, seq<Byte>>, b: map<int, seq<Byte>>, pos0: int, data: seq<Byte>, w: int, c: int,
                  blk: int, off: int, base: seq<Byte>, w': int, b': map<int, seq<Byte>>)
    requires ContentsOk(b0) && ContentsOk(b) && 0 <= w && w + c <= |data| && |base| == BLOCK_SIZE
    requires blk == (pos0 + w) / BLOCK_SIZE && off == (pos0 + w) % BLOCK_SIZE && 1 <= c <= BLOCK_SIZE - off
    requires Holds(b, pos0, data[..w]) && Keeps(b0, b, pos0, pos0 + w)
    requires blk in b ==> base == b[blk]
    requires blk !in b ==> c == BLOCK_SIZE
    requires w' == w + c && b' == b[blk := Spliced(base, off, data[w..w + c])]
    ensures ContentsOk(b') && Holds(b', pos0, data[..w']) && Keeps(b0, b', pos0, pos0 + w')
  {
    var pos := pos0 + w;
    var src := data[w..w + c];
    forall p | pos0 <= p < pos0 + w + c
      ensures Present(b', p) && DevByte(b', p) == data[..w + c][p - pos0]
    {
      if p < pos {
        assert Present(b, p);
        SplicedByte(b, blk, base, off, src, p);
        if p / BLOCK_SIZE == blk {
          OffsetOrder(p, pos);
          assert Present(b, pos);
        }
      } else {
        InBlock(pos, p - pos);
        SplicedByte(b, blk, base, off, src, p);
      }
    }
    forall p | !(pos0 <= p < pos0 + w + c)
      ensures (Present(b', p) <==> Present(b0, p)) && (Present(b0, p) ==> DevByte(b', p) == DevByte(b0, p))
    {
      if p / BLOCK_SIZE == blk {
        OffsetOrder(p, pos);
        assert Present(b, p);
      }
      if Present(b, p) || p / BLOCK_SIZE == blk {
        SplicedByte(b, blk, base, off, src, p);
      }
    }
  }

  /** One chunk read from block pos >> 10 extends what has been read. */
  lemma ReadStep(blocks: map<int, seq<Byte>>, pos0: int, out: seq<Byte>, c: int, blk: int, off: int, out': seq<Byte>)
    requires ContentsOk(blocks) && blk == (pos0 + |out|) / BLOCK_SIZE && off == (pos0 + |out|) % BLOCK_SIZE
    requires 1 <= c <= BLOCK_SIZE - off && blk in blocks && out' == out + blocks[blk][off..off + c]
    requires forall p :: pos0 <= p < pos0 + |out| ==> Present(blocks, p) && out[p - pos0] == DevByte(blocks, p)
    ensures forall p :: pos0 <= p < pos0 + |out'| ==> Present(blocks, p) && out'[p - pos0] == DevByte(blocks, p)
  {
    var q := pos0 + |out|;
    forall p | pos0 <= p < pos0 + |out'|
      ensures Present(blocks, p) && out'[p - pos0] == DevByte(blocks, p)
    {
      if p >= q {
        InBlock(q, p - q);
      }
    }
  }

  /** A chunk that can be read adds its length to ReadSpan. */
  lemma ReadSpanStep(blocks: map<int, seq<Byte>>, pos: int, count: int, c: int, pos': int, count': int)
    requires count > 0 && c == Chunk(pos % BLOCK_SIZE, count) && Present(blocks, pos)
    requires pos' == pos + c && count' == count - c
    ensures ReadSpan(blocks, pos, count) == c + ReadSpan(blocks, pos', count')
  {
  }

  /** A chunk that can be written adds its length to WriteSpan. */
  lemma WriteSpanStep(blocks: map<int, seq<Byte>>, pos: int, count: int, c: int, pos': int, count': int)
    requires count > 0 && c == Chunk(pos % BLOCK_SIZE, count) && (c == BLOCK_SIZE || Present(blocks, pos))
    requires pos' == pos + c && count' == count - c
    ensures WriteSpan(blocks, pos, count) == c + WriteSpan(blocks, pos', count')
  {
  }

  /** The device as block_dev.c sees it: block contents, and the blocks
      whose buffers have been marked dirty. */
  class Device {
    var blocks: map<int, seq<Byte>>
    var dirty: set<int>

    ghost predicate Valid()
      reads this
    {
      ContentsOk(blocks)
    }

    /** The byte-by-byte copy of the user bytes src into block blk at offset off. */
    static method CopyIn(blk: seq<Byte>, off: int, src: seq<Byte>) returns (r: seq<Byte>)
      requires |blk| == BLOCK_SIZE && 0 <= off && off + |src| <= BLOCK_SIZE
      ensures r == Spliced(blk, off, src)
    {
      r := blk;
      var i := 0;
      while i < |src|
        invariant 0 <= i <= |src| && |r| == BLOCK_SIZE
        invariant forall k :: 0 <= k < BLOCK_SIZE ==> r[k] == if off <= k < off + i then src[k - off] else blk[k]
      {
        r := r[off + i := src[i]];
        i := i + 1;
      }
    }

    /** The byte-by-byte copy of c bytes of block blk from offset off out to the user. */
    static method CopyOut(blk: seq<Byte>, off: int, c: int) returns (out: seq<Byte>)
      requires |blk| == BLOCK_SIZE && 0 <= off && 0 <= c && off + c <= BLOCK_SIZE
      ensures out == blk[off..off + c]
    {
      out := [];
      var i := 0;
      while i < c
        invariant 0 <= i <= c && out == blk[off..off + i]
      {
        out := out + [blk[off + i]];
        i := i + 1;
      }
    }

    /** block_write(dev, pos, buf, count): buf holds the count bytes of the
        user's buffer. Returns the bytes written, or -EIO when a first chunk
        that needs a read fails, and the new *pos. The bytes written are
        exactly those WriteSpan counts, they land at pos onwards, every block
        they touch is marked dirty, and no other byte changes. */
    method BlockWrite(pos: int, buf: seq<Byte>, count: int) returns (r: int, pos': int)
      requires Valid() && count <= |buf|
      modifies this
      ensures Valid()
      ensures var n := WriteSpan(old(blocks), pos, count);
              r == (if n == 0 && count > 0 then -EIO else n) && pos' == pos + n &&
              Holds(blocks, pos, buf[..n]) && Keeps(old(blocks), blocks, pos, pos + n) &&
              dirty == old(dirty) + Touched(pos, n)
    {
      ghost var b0, pos0, count0 := blocks, pos, count;
      var block := pos / BLOCK_SIZE;
      var offset := pos % BLOCK_SIZE;
      var left := count;
      var written := 0;
      pos' := pos;
      while left > 0
        invariant Valid() && 0 <= written && written + left == count0 && pos' == pos0 + written
        invariant left > 0 ==> pos' == BLOCK_SIZE * block + offset && 0 <= offset < BLOCK_SIZE
        invariant WriteSpan(b0, pos0, count0) == written + WriteSpan(b0, pos', left)
        invariant Holds(blocks, pos0, buf[..written]) && Keeps(b0, blocks, pos0, pos0 + written)
        invariant dirty == old(dirty) + Touched(pos0, written)
      {
        Split(pos', block, offset);
        ghost var here, rest := pos', left;
        var chars := Chunk(offset, left);
        var base;
        if chars == BLOCK_SIZE {
          // getblk: the buffer's old bytes are all overwritten.
          base := if block in blocks then blocks[block] else ZeroBlock();
        } else if block in blocks {
          // breada brought the block up to date.
          base := blocks[block];
        } else {
          assert WriteSpan(b0, pos', left) == 0;
          block := block + 1;
          r := if written != 0 then written else -EIO;
          return;
        }
        assert Present(b0, pos') <==> block in blocks;
        ghost var b1, w0, blk, off := blocks, written, block, offset;
        var data := CopyIn(base, offset, buf[written..written + chars]);
        blocks := blocks[block := data];
        dirty := dirty + {block};
        block := block + 1;
        offset := 0;
        pos' := pos' + chars;
        written := written + chars;
        left := left - chars;
        WriteSpanStep(b0, here, rest, chars, pos', left);
        WriteStep(b0, b1, pos0, buf, w0, chars, blk, off, base, written, blocks);
        TouchedStep(pos0, w0, chars, written);
      }
      r := written;
    }

    /** block_read(dev, pos, buf, count): the bytes read and the new *pos
        (an unsigned long). Returns the bytes read, or -EIO when the first
        block cannot be read. The device does not change. */
    method BlockRead(pos: nat, count: int) returns (r: int, out: seq<Byte>, pos': nat)
      requires Valid()
      ensures var n := ReadSpan(blocks, pos, count);
              r == (if n == 0 && count > 0 then -EIO else n) && pos' == pos + n && |out| == n &&
              forall p :: pos <= p < pos + n ==> Present(blocks, p) && out[p - pos] == DevByte(blocks, p)
    {
      var block := pos / BLOCK_SIZE;
      var offset := pos % BLOCK_SIZE;
      var left := count;
      var read := 0;
      out := [];
      pos' := pos;
      while left > 0
        invariant 0 <= read && read + left == count && pos' == pos + read && |out| == read
        invariant left > 0 ==> pos' == BLOCK_SIZE * block + offset && 0 <= offset < BLOCK_SIZE
        invariant ReadSpan(blocks, pos, count) == read + ReadSpan(blocks, pos', left)
        invariant forall p :: pos <= p < pos + read ==> Present(blocks, p) && out[p - pos] == DevByte(blocks, p)
      {
        Split(pos', block, offset);
        ghost var here, rest := pos', left;
        var chars := Chunk(offset, left);
        if block !in blocks {
          r := if read != 0 then read else -EIO;
          return;
        }
        block := block + 1;
        var bytes := CopyOut(blocks[block - 1], offset, chars);
        ghost var out0, off := out, offset;
        offset := 0;
        pos' := pos' + chars;
        read := read + chars;
        left := left - chars;
        out := out + bytes;
        ReadSpanStep(blocks, here, rest, chars, pos', left);
        ReadStep(blocks, pos, out0, chars, block - 1, off, out);
      }
      r := read;
    }
  }

  /** The blocks holding bytes pos .. pos + n - 1. */
  ghost function Touched(pos: int, n: int): set<int>
  {
    set p | pos <= p < pos + n :: p / BLOCK_SIZE
  }

  /** A chunk adds its one block to the blocks touched. */
  lemma TouchedStep(pos0: int, w: int, c: int, w': int)
    requires 0 <= w && 1 <= c <= BLOCK_SIZE - (pos0 + w) % BLOCK_SIZE && w' == w + c
    ensures Touched(pos0, w') == Touched(pos0, w) + {(pos0 + w) / BLOCK_SIZE}
  {
    forall p | pos0 + w <= p < pos0 + w + c
      ensures p / BLOCK_SIZE == (pos0 + w) / BLOCK_SIZE
    {
      InBlock(pos0 + w, p - (pos0 + w));
    }
    assert (pos0 + w) / BLOCK_SIZE in Touched(pos0, w + c);
  }

  /** When every byte of the range can be read, block_read transfers all of it. */
  lemma {:induction false} AllRead(blocks: map<int, seq<Byte>>, pos: int, count: int)
    requires forall p :: pos <= p < pos + count ==> Present(blocks, p)
    ensures ReadSpan(blocks, pos, count) == if count <= 0 then 0 else count
    decreases count
  {
    if count > 0 {
      var c := Chunk(pos % BLOCK_SIZE, count);
      AllRead(blocks, pos + c, count - c);
    }
  }

  /** Reading back what block_write wrote: the same bytes, all of them. */
  lemma WriteThenRead(b1: map<int, seq<Byte>>, pos: int, data: seq<Byte>)
    requires ContentsOk(b1) && Holds(b1, pos, data)
    ensures ReadSpan(b1, pos, |data|) == |data|
    ensures forall p :: pos <= p < pos + |data| ==> DevByte(b1, p) == data[p - pos]
  {
    AllRead(b1, pos, |data|);
  }
}
