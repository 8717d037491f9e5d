/** The RAM disk (kernel/blk_drv/ramdisk.c): rd_init clears the memory it
    is given, do_rd_request serves the requests of major 1 by copying
    between the request buffers and that memory, and rd_load copies a root
    file system image from the boot floppy into it. The disk's memory is an
    array from rd_start on; a request's buffer is the array passed beside
    it. The request list is a Driver view, CURRENT first. */
module RamDisk {
  import opened Util
  import opened FsDefs
  import opened Blk
  import opened Driver
  import opened Super

  const MAJOR_RD: int := 1
  const LIST_DESTROYED: string := "ramdisk: request list destroyed"
  const UNKNOWN_COMMAND: string := "unknown ramdisk-command"
  /** The first block of the image on the floppy. */
  const IMAGE_START: int := 256
  /** ROOT_DEV after a load: the RAM disk, major 1 minor 1. */
  const RAM_ROOT: int := 0x0101

  /** The byte offset into the disk (sector << 9) and the byte count
      (nr_sectors << 9) of a request. */
  function Off(r: Request): int { r.sector * 512 }
  function Len(r: Request): int { r.nrSectors * 512 }

  /** Requests as make_request fills them: a sector and a count that are
      not negative. */
  predicate Sane(r: Request)
  {
    r.sector >= 0 && r.nrSectors >= 0
  }

  /** A request do_rd_request serves: minor 1, and the bytes it addresses
      lie within the rd_length bytes of the disk. */
  predicate Fits(r: Request, length: int)
  {
    Minor(r.dev) == 1 && Off(r) + Len(r) <= length
  }

  /** The disk's memory after request r, whose buffer held data. */
  function Effect(m: seq<Byte>, r: Request, data: seq<Byte>, length: int): (m': seq<Byte>)
    requires Sane(r) && Len(r) <= |data| && length <= |m|
    ensures |m'| == |m|
  {
    if Fits(r, length) && r.cmd == WRITE then Overwrite(m, Off(r), data[..Len(r)]) else m
  }

  predicate Served(q: seq<Request>, ds: seq<seq<Byte>>, length: int, m: seq<Byte>)
  {
    |ds| == |q| && length <= |m| && forall i :: 0 <= i < |q| ==> Sane(q[i]) && Len(q[i]) <= |ds[i]|
  }

  /** The disk's memory after the first k requests of q, with buffers ds. */
  function MemAfter(m: seq<Byte>, q: seq<Request>, ds: seq<seq<Byte>>, length: int, k: int): (m': seq<Byte>)
    requires Served(q, ds, length, m) && 0 <= k <= |q|
    ensures |m'| == |m|
  {
    if k == 0 then m else Effect(MemAfter(m, q, ds, length, k - 1), q[k - 1], ds[k - 1], length)
  }

  /** Buffer i after the requests: a read that was served holds the disk's
      bytes at its offset as they were when it was served; the others hold
      what they held. */
  function BufAfter(m: seq<Byte>, q: seq<Request>, ds: seq<seq<Byte>>, length: int, i: int): seq<Byte>
    requires Served(q, ds, length, m) && 0 <= i < |q|
  {
    if Fits(q[i], length) && q[i].cmd == READ then
      Overwrite(ds[i], 0, MemAfter(m, q, ds, length, i)[Off(q[i])..Off(q[i]) + Len(q[i])])
    else ds[i]
  }

  /** A read served after a write of the same bytes, with no request in
      between, returns the written bytes. */
  lemma ReadAfterWrite(m: seq<Byte>, q: seq<Request>, ds: seq<seq<Byte>>, length: int, k: int)
    requires Served(q, ds, length, m) && 0 <= k && k + 1 < |q|
    requires q[k].cmd == WRITE && q[k + 1].cmd == READ && Fits(q[k], length) && Fits(q[k + 1], length)
    requires Off(q[k + 1]) == Off(q[k]) && Len(q[k + 1]) == Len(q[k])
    ensures BufAfter(m, q, ds, length, k + 1)[..Len(q[k])] == ds[k][..Len(q[k])]
  {
    var w := MemAfter(m, q, ds, length, k + 1);
    assert w == Overwrite(MemAfter(m, q, ds, length, k), Off(q[k]), ds[k][..Len(q[k])]);
  }

  /** The outcomes end_request gives the first k requests of q. */
  function Outcomes(q: seq<Request>, length: int, k: int): (e: seq<Ended>)
    requires 0 <= k <= |q|
    ensures |e| == k
  {
    if k == 0 then [] else Outcomes(q, length, k - 1) + [Ended(q[k - 1], Fits(q[k - 1], length))]
  }

  /** Request i retired successfully exactly when it fits the disk. */
  lemma {:induction false} OutcomesMeans(q: seq<Request>, length: int, k: int, i: int)
    requires 0 <= i < k <= |q|
    ensures Outcomes(q, length, k)[i] == Ended(q[i], Fits(q[i], length))
  {
    if i < k - 1 {
      OutcomesMeans(q, length, k - 1, i);
    }
  }

  /** Each block's contents, in a form bufs can be compared with. */
  ghost function Contents(bufs: seq<array<Byte>>): (r: seq<seq<Byte>>)
    reads set i | 0 <= i < |bufs| :: bufs[i]
    ensures |r| == |bufs| && forall i :: 0 <= i < |bufs| ==> r[i] == bufs[i][..]
  {
    if bufs == [] then [] else Contents(bufs[..|bufs| - 1]) + [bufs[|bufs| - 1][..]]
  }

  /** struct d_super_block as rd_load copies it from block 257: six
      unsigned shorts, an unsigned long at 12 and the magic at 16. */
  function DecodeSuper(b: seq<Byte>): DSuper
    requires |b| >= 18
  {
    DSuper(Le16(b, 0), Le16(b, 2), Le16(b, 4), Le16(b, 6), Le16(b, 8), Le16(b, 10), Le32(b, 12), Le16(b, 16))
  }

  predicate SuperInRange(d: DSuper)
  {
    0 <= d.ninodes < 0x1_0000 && 0 <= d.nzones < 0x1_0000 && 0 <= d.imapBlocks < 0x1_0000 &&
    0 <= d.zmapBlocks < 0x1_0000 && 0 <= d.firstDataZone < 0x1_0000 && 0 <= d.logZoneSize < 0x1_0000 &&
    0 <= d.maxSize < 0x1_0000_0000 && 0 <= d.magic < 0x1_0000
  }

  /** The 18 bytes of a d_super_block as mkfs writes them, low byte first. */
  function EncodeSuper(d: DSuper): (b: seq<Byte>)
    requires SuperInRange(d)
    ensures |b| == 18
  {
    [d.ninodes % 256, d.ninodes / 256, d.nzones % 256, d.nzones / 256,
     d.imapBlocks % 256, d.imapBlocks / 256, d.zmapBlocks % 256, d.zmapBlocks / 256,
     d.firstDataZone % 256, d.firstDataZone / 256, d.logZoneSize % 256, d.logZoneSize / 256,
     d.maxSize % 256, (d.maxSize / 256) % 256, (d.maxSize / 0x1_0000) % 256, d.maxSize / 0x100_0000,
     d.magic % 256, d.magic / 256]
  }

  lemma Split32(x: int)
    requires 0 <= x < 0x1_0000_0000
    ensures x % 256 + 256 * ((x / 256) % 256) == x % 0x1_0000
    ensures (x / 0x1_0000) % 256 + 256 * (x / 0x100_0000) == x / 0x1_0000
    ensures x % 0x1_0000 + 0x1_0000 * (x / 0x1_0000) == x
  {
  }

  /** The block rd_load reads back the super block written into it,
      whatever follows it in the block. */
  lemma DecodeEncode(d: DSuper, rest: seq<Byte>)
    requires SuperInRange(d)
    ensures DecodeSuper(EncodeSuper(d) + rest) == d
  {
    var b := EncodeSuper(d) + rest;
    Split32(d.maxSize);
    assert Le32(b, 12) == d.maxSize;
  }

  function Pow2(n: nat): (r: int)
    ensures r >= 1
  {
    if n == 0 then 1 else 2 * Pow2(n - 1)
  }

  /** The int nblocks = s_nzones << s_log_zone_size: the shift count is
      taken mod 32, as the processor's shift does, and the result is a
      32-bit two's-complement value. */
  function NBlocks(d: DSuper): (n: int)
    requires SuperInRange(d)
    ensures -0x8000_0000 <= n < 0x8000_0000
    ensures d.logZoneSize == 0 ==> n == d.nzones
  {
    var u := Unsigned(d.nzones * Pow2(d.logZoneSize % 32));
    if u >= 0x8000_0000 then u - 0x1_0000_0000 else u
  }

  /** The image rd_load copies: blocks 256 to 256 + n - 1 of the floppy. */
  function Image(blocks: map<int, seq<Byte>>, n: nat): (r: seq<Byte>)
    requires HasImage(blocks, n)
  {
    if n == 0 then [] else Image(blocks, n - 1) + Block(blocks, n - 1)
  }

  /** Block i of the image: block 256 + i of the floppy. */
  function Block(blocks: map<int, seq<Byte>>, i: int): (r: seq<Byte>)
    requires Readable(blocks, i)
    ensures BlocksOk(blocks) ==> |r| == BLOCK_SIZE
  {
    blocks[IMAGE_START + i]
  }

  /** Block i of the image can be read. */
  predicate Readable(blocks: map<int, seq<Byte>>, i: int)
  {
    IMAGE_START + i in blocks
  }

  predicate HasImage(blocks: map<int, seq<Byte>>, n: int)
  {
    forall i :: 0 <= i < n ==> Readable(blocks, i)
  }

  predicate BlocksOk(blocks: map<int, seq<Byte>>)
  {
    forall b :: b in blocks ==> |blocks[b]| == BLOCK_SIZE
  }

  /** Block i of the loaded image is block 256 + i of the floppy. */
  lemma {:induction false} ImageBlock(blocks: map<int, seq<Byte>>, n: nat, i: int)
    requires BlocksOk(blocks) && HasImage(blocks, n)
    requires 0 <= i < n
    ensures |Image(blocks, n)| == BLOCK_SIZE * n
    ensures Image(blocks, n)[BLOCK_SIZE * i..BLOCK_SIZE * (i + 1)] == Block(blocks, i)
  {
    ImageLength(blocks, n);
    ImageLength(blocks, n - 1);
    if i < n - 1 {
      ImageBlock(blocks, n - 1, i);
      assert Image(blocks, n)[..BLOCK_SIZE * (n - 1)] == Image(blocks, n - 1);
    } else {
      assert Image(blocks, n)[BLOCK_SIZE * (n - 1)..] == Block(blocks, n - 1);
    }
  }

  lemma {:induction false} ImageLength(blocks: map<int, seq<Byte>>, n: nat)
    requires BlocksOk(blocks) && HasImage(blocks, n)
    ensures |Image(blocks, n)| == BLOCK_SIZE * n
  {
    if n > 0 {
      ImageLength(blocks, n - 1);
    }
  }

  /** How rd_load ends: no RAM disk, a root device that is not a floppy,
      block 257 unreadable, no MINIX file system there, an image larger
      than the RAM disk, a negative block count (whose copy loop would run
      past the disk, which is not modelled), a block of the image that
      cannot be read, or the image loaded. */
  datatype Load =
    | NoRamDisk
    | NotFloppy
    | NoSuperBlock
    | NotMinix
    | TooBig(nblocks: int)
    | Runaway(nblocks: int)
    | IoError(block: int)
    | Loaded(nblocks: int)

  class RamDisk {
    /** The memory from rd_start on. */
    const mem: array<Byte>
    /** rd_length. */
    var length: int
    /** Whether blk_dev[1].request_fn is set. */
    var hasRequestFn: bool
    var rootDev: int
    var queue: seq<Request>
    var ended: seq<Ended>

    ghost predicate Valid()
      reads this
    {
      0 <= length <= mem.Length
    }

    /** No RAM disk yet: rd_length is 0; the memory is size bytes. */
    constructor (size: nat, rootDev: int)
      ensures Valid() && fresh(mem) && mem.Length == size && length == 0 && !hasRequestFn
      ensures this.rootDev == rootDev && queue == [] && ended == []
    {
      mem := new Byte[size](_ => 0);
      length, hasRequestFn := 0, false;
      this.rootDev := rootDev;
      queue, ended := [], [];
    }

    method EndRequest(uptodate: bool)
      requires queue != []
      modifies this`queue, this`ended
      ensures queue == old(queue[1..]) && ended == old(ended) + [Ended(old(queue[0]), uptodate)]
    {
      ended := ended + [Ended(queue[0], uptodate)];
      queue := queue[1..];
    }

    /** rd_init: the request function is set, rd_length is length and the
        length bytes of the disk are cleared. */
    method RdInit(size: int) returns (r: int)
      requires 0 <= size <= mem.Length
      modifies this`length, this`hasRequestFn, mem
      ensures Valid() && r == size && length == size && hasRequestFn
      ensures forall i :: 0 <= i < mem.Length ==> mem[i] == if i < size then 0 else old(mem[i])
    {
      hasRequestFn := true;
      length := size;
      var i := 0;
      while i < size
        invariant 0 <= i <= size && length == size && hasRequestFn
        invariant forall k :: 0 <= k < mem.Length ==> mem[k] == if k < i then 0 else old(mem[k])
      {
        mem[i] := 0;
        i := i + 1;
      }
      return size;
    }

    /** memcpy from buf to the disk at off. */
    method CopyIn(buf: array<Byte>, off: int, len: int)
      requires buf != mem && 0 <= off && 0 <= len <= buf.Length && off + len <= mem.Length
      modifies mem
      ensures mem[..] == Overwrite(old(mem[..]), off, buf[..len])
    {
      var i := 0;
      while i < len
        invariant 0 <= i <= len
        invariant forall k :: 0 <= k < mem.Length ==> mem[k] == if off <= k < off + i then buf[k - off] else old(mem[k])
      {
        mem[off + i] := buf[i];
        i := i + 1;
      }
      OverwriteMeans(old(mem[..]), off, buf[..len]);
      assert mem[..] == Overwrite(old(mem[..]), off, buf[..len]);
    }

    /** memcpy from the disk at off to buf. */
    method CopyOut(buf: array<Byte>, off: int, len: int)
      requires buf != mem && 0 <= off && 0 <= len <= buf.Length && off + len <= mem.Length
      modifies buf
      ensures buf[..] == Overwrite(old(buf[..]), 0, mem[off..off + len])
    {
      var i := 0;
      while i < len
        invariant 0 <= i <= len
        invariant forall k :: 0 <= k < buf.Length ==> buf[k] == if k < i then mem[off + k] else old(buf[k])
      {
        buf[i] := mem[off + i];
        i := i + 1;
      }
      OverwriteMeans(old(buf[..]), 0, mem[off..off + len]);
      assert buf[..] == Overwrite(old(buf[..]), 0, mem[off..off + len]);
    }

    /** do_rd_request, with bufs[i] the buffer of the i-th request. The
        requests are served in order: one of another major stops the scan
        with a panic; one that does not fit fails; a write copies its
        buffer to the disk and a read the disk to its buffer, and either
        succeeds; any other command panics. served is the number retired. */
    method DoRdRequest(bufs: seq<array<Byte>>) returns (st: Status, served: int)
      requires Valid() && |bufs| == |queue|
      requires forall i :: 0 <= i < |queue| ==> Sane(queue[i]) && Len(queue[i]) <= bufs[i].Length && bufs[i] != mem
      requires forall i, j :: 0 <= i < |bufs| && 0 <= j < |bufs| && i != j ==> bufs[i] != bufs[j]
      modifies this`queue, this`ended, mem, set i | 0 <= i < |bufs| :: bufs[i]
      ensures Served(old(queue), old(Contents(bufs)), length, old(mem[..]))
      ensures 0 <= served <= |old(queue)| && queue == old(queue)[served..]
      ensures ended == old(ended) + Outcomes(old(queue), length, served)
      ensures mem[..] == MemAfter(old(mem[..]), old(queue), old(Contents(bufs)), length, served)
      ensures forall i :: 0 <= i < |bufs| ==>
                bufs[i][..] == if i < served then BufAfter(old(mem[..]), old(queue), old(Contents(bufs)), length, i) else old(bufs[i][..])
      ensures st == Done <==> served == |old(queue)|
      ensures st == Panic(LIST_DESTROYED) ==> served < |old(queue)| && Major(old(queue)[served].dev) != MAJOR_RD
      ensures st == Panic(UNKNOWN_COMMAND) ==>
                served < |old(queue)| && Fits(old(queue)[served], length) &&
                old(queue)[served].cmd != READ && old(queue)[served].cmd != WRITE
      ensures st == Done || st == Panic(LIST_DESTROYED) || st == Panic(UNKNOWN_COMMAND)
    {
      ghost var q0, e0, m0, d0 := queue, ended, mem[..], Contents(bufs);
      served, st := 0, Done;
      while queue != []
        invariant Progress(bufs, q0, d0, m0, e0, served)
        decreases |queue|
      {
        var r := queue[0];
        if Major(r.dev) != MAJOR_RD {
          st := Panic(LIST_DESTROYED);
          break;
        }
        if Fits(r, length) && r.cmd != WRITE && r.cmd != READ {
          st := Panic(UNKNOWN_COMMAND);
          break;
        }
        Step(bufs, q0, d0, m0, e0, served);
        served := served + 1;
      }
    }

    /** The state after the first served requests of q0 were retired,
        from the disk m0, the buffers d0 and the retired list e0. */
    ghost predicate Progress(bufs: seq<array<Byte>>, q0: seq<Request>, d0: seq<seq<Byte>>, m0: seq<Byte>, e0: seq<Ended>, served: int)
      reads this, mem, set i | 0 <= i < |bufs| :: bufs[i]
    {
      Served(q0, d0, length, m0) && |bufs| == |q0| &&
      0 <= served <= |q0| && queue == q0[served..] &&
      ended == e0 + Outcomes(q0, length, served) &&
      mem[..] == MemAfter(m0, q0, d0, length, served) &&
      forall i :: 0 <= i < |bufs| ==> bufs[i][..] == if i < served then BufAfter(m0, q0, d0, length, i) else d0[i]
    }

    /** One turn of the scan: CURRENT, request served, is retired. */
    method Step(bufs: seq<array<Byte>>, ghost q0: seq<Request>, ghost d0: seq<seq<Byte>>, ghost m0: seq<Byte>, ghost e0: seq<Ended>, served: int)
      requires Valid() && Progress(bufs, q0, d0, m0, e0, served) && queue != []
      requires forall i :: 0 <= i < |bufs| ==> bufs[i] != mem
      requires forall i, j :: 0 <= i < |bufs| && 0 <= j < |bufs| && i != j ==> bufs[i] != bufs[j]
      requires Fits(queue[0], length) ==> queue[0].cmd == READ || queue[0].cmd == WRITE
      modifies this`queue, this`ended, mem, bufs[served]
      ensures Progress(bufs, q0, d0, m0, e0, served + 1)
    {
      var buf := bufs[served];
      ghost var r, m := queue[0], mem[..];
      StepValues(m0, q0, d0, length, served, m);
      ghost var want := BufAfter(m0, q0, d0, length, served);
      if Fits(r, length) && r.cmd == READ {
        assert mem[Off(r)..Off(r) + Len(r)] == m[Off(r)..Off(r) + Len(r)];
      }
      Retire(buf);
      assert buf[..] == want;
      forall i | 0 <= i < |bufs|
        ensures bufs[i][..] == if i < served + 1 then BufAfter(m0, q0, d0, length, i) else d0[i]
      {
        if i != served {
          assert bufs[i] != buf;
        }
      }
    }

    /** What retiring request k of q does to the disk, its buffer and the
        retired list, in terms of the state after the first k. */
    static lemma StepValues(m0: seq<Byte>, q0: seq<Request>, d0: seq<seq<Byte>>, length: int, k: int, m: seq<Byte>)
      requires Served(q0, d0, length, m0) && 0 <= k < |q0| && m == MemAfter(m0, q0, d0, length, k)
      ensures Outcomes(q0, length, k + 1) == Outcomes(q0, length, k) + [Ended(q0[k], Fits(q0[k], length))]
      ensures MemAfter(m0, q0, d0, length, k + 1) == Effect(m, q0[k], d0[k], length)
      ensures BufAfter(m0, q0, d0, length, k) ==
                if Fits(q0[k], length) && q0[k].cmd == READ then Overwrite(d0[k], 0, m[Off(q0[k])..Off(q0[k]) + Len(q0[k])]) else d0[k]
    {
    }

    /** CURRENT served and retired: one that does not fit fails, a read or
        write that fits is served and succeeds. */
    method Retire(buf: array<Byte>)
      requires Valid() && queue != [] && buf != mem && Sane(queue[0]) && Len(queue[0]) <= buf.Length
      requires Fits(queue[0], length) ==> queue[0].cmd == READ || queue[0].cmd == WRITE
      modifies this`queue, this`ended, mem, buf
      ensures queue == old(queue[1..]) && ended == old(ended) + [Ended(old(queue[0]), Fits(old(queue[0]), length))]
      ensures mem[..] == Effect(old(mem[..]), old(queue[0]), old(buf[..]), length)
      ensures buf[..] == if Fits(old(queue[0]), length) && old(queue[0]).cmd == READ then
                           Overwrite(old(buf[..]), 0, old(mem[Off(queue[0])..Off(queue[0]) + Len(queue[0])]))
                         else old(buf[..])
    {
      if !Fits(queue[0], length) {
        EndRequest(false);
      } else {
        Serve(buf, queue[0]);
        EndRequest(true);
      }
    }

    /** One request of the disk served: a write copies the buffer to the
        disk, a read the disk to the buffer. */
    method Serve(buf: array<Byte>, r: Request)
      requires Valid() && buf != mem && Sane(r) && Fits(r, length) && Len(r) <= buf.Length
      requires r.cmd == READ || r.cmd == WRITE
      modifies mem, buf
      ensures mem[..] == Effect(old(mem[..]), r, old(buf[..]), length)
      ensures buf[..] == if r.cmd == READ then Overwrite(old(buf[..]), 0, old(mem[Off(r)..Off(r) + Len(r)])) else old(buf[..])
    {
      if r.cmd == WRITE {
        CopyIn(buf, Off(r), Len(r));
      } else {
        CopyOut(buf, Off(r), Len(r));
      }
    }

    /** memcpy of one floppy block to the disk at block n. */
    method CopyBlock(data: seq<Byte>, n: int)
      requires |data| == BLOCK_SIZE && 0 <= n && BLOCK_SIZE * (n + 1) <= mem.Length
      modifies mem
      ensures mem[..] == Overwrite(old(mem[..]), BLOCK_SIZE * n, data)
    {
      var i := 0;
      while i < BLOCK_SIZE
        invariant 0 <= i <= BLOCK_SIZE
        invariant forall k :: 0 <= k < mem.Length ==> mem[k] == if BLOCK_SIZE * n <= k < BLOCK_SIZE * n + i then data[k - BLOCK_SIZE * n] else old(mem[k])
      {
        mem[BLOCK_SIZE * n + i] := data[i];
        i := i + 1;
      }
      OverwriteMeans(old(mem[..]), BLOCK_SIZE * n, data);
      assert mem[..] == Overwrite(old(mem[..]), BLOCK_SIZE * n, data);
    }

    /** rd_load, with blocks the readable blocks of the root floppy. With a
        RAM disk and a floppy root, the super block is read from block 257;
        a MINIX image of nblocks blocks that fits in rd_length is copied
        block by block from block 256 to the start of the disk, and the
        RAM disk becomes the root device. */
    method RdLoad(blocks: map<int, seq<Byte>>) returns (o: Load)
      requires Valid() && BlocksOk(blocks)
      modifies mem, this`rootDev
      ensures o == NoRamDisk <==> old(length) == 0
      ensures o == NotFloppy <==> length != 0 && Major(old(rootDev)) != 2
      ensures o == NoSuperBlock <==> length != 0 && Major(old(rootDev)) == 2 && IMAGE_START + 1 !in blocks
      ensures o.NotMinix? || o.TooBig? || o.Runaway? || o.IoError? || o.Loaded? ==>
                length != 0 && Major(old(rootDev)) == 2 && IMAGE_START + 1 in blocks &&
                (o.NotMinix? <==> DecodeSuper(blocks[IMAGE_START + 1]).magic != SUPER_MAGIC)
      ensures !o.IoError? && !o.Loaded? ==> mem[..] == old(mem[..]) && rootDev == old(rootDev)
      ensures o.TooBig? || o.Runaway? || o.IoError? || o.Loaded? ==>
                var d := DecodeSuper(blocks[IMAGE_START + 1]);
                d.magic == SUPER_MAGIC && (o.TooBig? <==> NBlocks(d) > length / BLOCK_SIZE) &&
                (o.Runaway? <==> NBlocks(d) < 0) &&
                (o.Loaded? ==> o.nblocks == NBlocks(d)) &&
                (o.IoError? ==> IMAGE_START <= o.block < IMAGE_START + NBlocks(d))
      ensures o.Loaded? ==>
                rootDev == RAM_ROOT && BLOCK_SIZE * o.nblocks <= length &&
                HasImage(blocks, o.nblocks) &&
                mem[..BLOCK_SIZE * o.nblocks] == Image(blocks, o.nblocks) &&
                mem[BLOCK_SIZE * o.nblocks..] == old(mem[BLOCK_SIZE * o.nblocks..])
      ensures o.IoError? ==>
                rootDev == old(rootDev) && o.block !in blocks && HasImage(blocks, o.block - IMAGE_START) &&
                mem[..BLOCK_SIZE * (o.block - IMAGE_START)] == Image(blocks, o.block - IMAGE_START) &&
                mem[BLOCK_SIZE * (o.block - IMAGE_START)..] == old(mem[BLOCK_SIZE * (o.block - IMAGE_START)..])
    {
      if length == 0 {
        return NoRamDisk;
      }
      if Major(rootDev) != 2 {
        return NotFloppy;
      }
      if IMAGE_START + 1 !in blocks {
        return NoSuperBlock;
      }
      var s := DecodeSuper(blocks[IMAGE_START + 1]);
      if s.magic != SUPER_MAGIC {
        return NotMinix;
      }
      var nblocks := NBlocks(s);
      if nblocks > length / BLOCK_SIZE {
        return TooBig(nblocks);
      }
      if nblocks < 0 {
        return Runaway(nblocks);
      }
      var n := 0;
      while n < nblocks
        invariant 0 <= n <= nblocks && BLOCK_SIZE * nblocks <= length && rootDev == old(rootDev)
        invariant HasImage(blocks, n)
        invariant mem[..BLOCK_SIZE * n] == Image(blocks, n)
        invariant mem[BLOCK_SIZE * n..] == old(mem[BLOCK_SIZE * n..])
      {
        var block := IMAGE_START + n;
        if block !in blocks {
          return IoError(block);
        }
        ghost var before := mem[..];
        CopyBlock(Block(blocks, n), n);
        LoadStep(before, mem[..], blocks, n, old(mem[..]));
        n := n + 1;
      }
      rootDev := RAM_ROOT;
      return Loaded(nblocks);
    }
  }

  /** One more block copied extends the loaded image by that block. */
  lemma LoadStep(before: seq<Byte>, after: seq<Byte>, blocks: map<int, seq<Byte>>, n: nat, orig: seq<Byte>)
    requires BlocksOk(blocks) && HasImage(blocks, n + 1)
    requires BLOCK_SIZE * (n + 1) <= |before| == |orig|
    requires before[..BLOCK_SIZE * n] == Image(blocks, n) && before[BLOCK_SIZE * n..] == orig[BLOCK_SIZE * n..]
    requires after == Overwrite(before, BLOCK_SIZE * n, Block(blocks, n))
    ensures after[..BLOCK_SIZE * (n + 1)] == Image(blocks, n + 1)
    ensures after[BLOCK_SIZE * (n + 1)..] == orig[BLOCK_SIZE * (n + 1)..]
  {
    var lo, hi := BLOCK_SIZE * n, BLOCK_SIZE * (n + 1);
    var d := Block(blocks, n);
    assert after == before[..lo] + d + before[hi..];
    assert after[..hi] == before[..lo] + d;
    assert after[hi..] == before[hi..];
    assert before[hi..] == before[lo..][BLOCK_SIZE..];
    assert orig[hi..] == orig[lo..][BLOCK_SIZE..];
  }
}
