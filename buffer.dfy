/** The buffer cache of fs/buffer.c: a fixed array of buffer heads, the 307
    hash-bucket heads and the head of the circular free list, with the
    operations that find, claim, read, write back and release buffers.

    Every wait of the source (wait_on_buffer, sleep_on) is a call to
    `Sleep`, which lets the environment take one step: another task's
    change to the pool (adopted only when it satisfies BufferState.Rely for
    the references this task holds) or a driver completing a request. The
    re-validation after each wait in get_hash_table and getblk is what makes
    the results correct whatever those steps do. */
module Buffer {
  import opened FsDefs
  import opened Util
  import opened Blk
  import opened BufferState
  import opened BufferQueues
  import opened Interleave
  import opened LlRwBlk

  /** sizeof(struct buffer_head) on the i386: six 4-byte pointers, the 4-byte
      block number, the 2-byte device, four 1-byte fields (uptodate, dirt,
      count, lock) and 2 bytes of padding before b_wait. */
  const HEAD_SIZE: int := 36

  /** Where buffer_init starts taking data blocks: 640 KB when memory ends at
      1 MB (640 KB .. 1 MB is video memory and BIOS), else the end of memory. */
  function Top(bufferEnd: int): int
  {
    if bufferEnd == 0x100000 then 640 * 1024 else bufferEnd
  }

  /** The data block buffer_init takes after the one at address a: the next
      one down, except that from 1 MB it jumps below 640 KB. */
  function Below(a: int): int
  {
    (if a == 0x100000 then 0xA0000 else a) - BLOCK_SIZE
  }

  /** The layout buffer_init builds: data blocks `addrs` from `top`
      downwards, buffer heads from `start` upwards, the i-th block lying
      above the end of the i-th head, until the next block would not. */
  predicate LaidOut(start: int, top: int, addrs: seq<int>)
  {
    (|addrs| > 0 ==> addrs[0] == top - BLOCK_SIZE) &&
    (forall i :: 0 <= i < |addrs| - 1 ==> addrs[i + 1] == Below(addrs[i])) &&
    (forall i :: 0 <= i < |addrs| ==> addrs[i] >= start + (i + 1) * HEAD_SIZE) &&
    (if addrs == [] then top - BLOCK_SIZE else Below(addrs[|addrs| - 1])) < start + (|addrs| + 1) * HEAD_SIZE
  }

  /** The data blocks of that layout are disjoint, lie below `top` and above
      every buffer head, and, for a 1 KB-aligned top outside the hole, none
      of them overlaps 640 KB .. 1 MB. */
  lemma {:induction false} LayoutSound(start: int, top: int, addrs: seq<int>)
    requires LaidOut(start, top, addrs)
    ensures forall i, j :: 0 <= i < j < |addrs| ==> addrs[j] + BLOCK_SIZE <= addrs[i]
    ensures forall i :: 0 <= i < |addrs| ==> addrs[i] + BLOCK_SIZE <= top
    ensures forall i :: 0 <= i < |addrs| ==> start + |addrs| * HEAD_SIZE <= addrs[i]
    ensures top % BLOCK_SIZE == 0 && (top <= 0xA0000 || top > 0x100000) ==>
              forall i :: 0 <= i < |addrs| ==> addrs[i] + BLOCK_SIZE <= 0xA0000 || addrs[i] >= 0x100000
  {
    forall i, j | 0 <= i < j < |addrs|
      ensures addrs[j] + BLOCK_SIZE <= addrs[i]
    {
      Descending(addrs, i, j);
    }
    if top % BLOCK_SIZE == 0 && (top <= 0xA0000 || top > 0x100000) {
      forall i | 0 <= i < |addrs|
        ensures addrs[i] + BLOCK_SIZE <= 0xA0000 || addrs[i] >= 0x100000
      {
        OutsideHole(top, addrs, i);
      }
    }
  }

  lemma {:induction false} Descending(addrs: seq<int>, i: int, j: int)
    requires forall k :: 0 <= k < |addrs| - 1 ==> addrs[k + 1] == Below(addrs[k])
    requires 0 <= i < j < |addrs|
    ensures addrs[j] + BLOCK_SIZE <= addrs[i]
    decreases j - i
  {
    if j > i + 1 {
      Descending(addrs, i, j - 1);
    }
  }

  lemma {:induction false} OutsideHole(top: int, addrs: seq<int>, i: int)
    requires top % BLOCK_SIZE == 0 && (top <= 0xA0000 || top > 0x100000)
    requires |addrs| > 0 ==> addrs[0] == top - BLOCK_SIZE
    requires forall k :: 0 <= k < |addrs| - 1 ==> addrs[k + 1] == Below(addrs[k])
    requires 0 <= i < |addrs|
    ensures addrs[i] % BLOCK_SIZE == 0
    ensures addrs[i] + BLOCK_SIZE <= 0xA0000 || addrs[i] >= 0x100000
  {
    if i > 0 {
      OutsideHole(top, addrs, i - 1);
    }
  }

  /** Buffer head i as buffer_init leaves it: data block addrs[i], device 0,
      all flags and the count clear, no hash links, and the free links of a
      ring in array order. The block number and the block contents, which
      buffer_init does not set, are taken to be zero. */
  function FreshHead(addrs: seq<int>, i: int): BufferHead
    requires 0 <= i < |addrs|
  {
    BufferHead(addrs[i], ZeroBlock(), 0, 0, false, false, 0, false, -1, -1,
               if i == 0 then |addrs| - 1 else i - 1, if i == |addrs| - 1 then 0 else i + 1)
  }

  /** The loop of buffer_init: take data blocks from `top` downwards, one
      buffer head each from `start` upwards, while the block still lies above
      the end of its head; from 1 MB, jump below 640 KB. */
  method Layout(start: int, top: int) returns (addrs: seq<int>)
    requires 0 <= start
    requires (start + 2 * (HEAD_SIZE + BLOCK_SIZE) <= top <= 0xA0000) ||
             (top >= 0x100000 + 2 * BLOCK_SIZE && start + 2 * HEAD_SIZE <= 0x100000)
    ensures LaidOut(start, top, addrs) && |addrs| >= 2
  {
    var b := top;
    var h := start;
    addrs := [];
    while b - BLOCK_SIZE >= h + HEAD_SIZE
      invariant h == start + |addrs| * HEAD_SIZE
      invariant b == (if addrs == [] then top else if addrs[|addrs| - 1] == 0x100000 then 0xA0000 else addrs[|addrs| - 1])
      invariant |addrs| > 0 ==> addrs[0] == top - BLOCK_SIZE
      invariant forall i :: 0 <= i < |addrs| - 1 ==> addrs[i + 1] == Below(addrs[i])
      invariant forall i :: 0 <= i < |addrs| ==> addrs[i] >= start + (i + 1) * HEAD_SIZE
      decreases b
    {
      b := b - BLOCK_SIZE;
      addrs := addrs + [b];
      h := h + HEAD_SIZE;
      if b == 0x100000 {
        b := 0xA0000;
      }
    }
  }

  /** The pool buffer_init builds is well formed: one free ring over all
      buffers in array order, every bucket empty, no buffer hashed. */
  function FreshPool(addrs: seq<int>): (bufs: seq<BufferHead>)
    ensures |bufs| == |addrs| && forall i :: 0 <= i < |addrs| ==> bufs[i] == FreshHead(addrs, i)
  {
    seq(|addrs|, i requires 0 <= i < |addrs| => FreshHead(addrs, i))
  }

  lemma FreshPoolOk(addrs: seq<int>)
    requires |addrs| >= 2
    ensures Inv(PoolState(FreshPool(addrs), seq(NR_HASH, _ => -1), 0, seq(|addrs|, i => i), seq(NR_HASH, _ => [])))
  {
    var n := |addrs|;
    var bufs := FreshPool(addrs);
    var ring := seq(n, i => i);
    var hash: seq<int> := seq(NR_HASH, _ => -1);
    var chains: seq<seq<int>> := seq(NR_HASH, _ => []);
    forall k | 0 <= k < n
      ensures RingLinkAt(bufs, ring, k)
    {
    }
    assert Cycle(bufs, 0, ring);
    forall b | 0 <= b < n
      ensures b in ring
    {
      assert ring[b] == b;
    }
    forall c | 0 <= c < NR_HASH
      ensures ChainOk(bufs, hash[c], chains[c], c)
    {
    }
    assert ChainsOk(bufs, hash, chains);
    assert Complete(bufs, chains);
  }

  /** Taking b out of the queues keeps the request tables consistent with
      the pool, since it changes no lock. */
  lemma UnqueuedKeeps(p: PoolState, q: (seq<Request>, seq<BlkDev>, seq<seq<int>>), b: int)
    requires Inv(p) && 0 <= b < |p.bufs| && QInv(q.0, q.1, q.2, p.bufs, -1)
    ensures Queued(p, b) && Detached(Unqueued(p, b), b) && QInv(q.0, q.1, q.2, Unqueued(p, b).bufs, -1)
  {
    UnqueuedOk(p, b);
    LocksSame(q.0, q.1, q.2, p.bufs, Unqueued(p, b).bufs, -1);
  }

  /** A buffer of the key is cached and up to date. */
  ghost predicate CachedUptodate(bufs: seq<BufferHead>, dev: int, block: int)
  {
    exists y :: 0 <= y < |bufs| && Hashed(bufs[y]) && bufs[y].dev == dev && bufs[y].blocknr == block && bufs[y].uptodate
  }

  /** What bread and breada leave when they return NULL: a buffer of the key,
      unlocked and not up to date (the one they released). */
  ghost predicate Released(bufs: seq<BufferHead>, dev: int, block: int)
  {
    exists y :: 0 <= y < |bufs| && bufs[y].dev == dev && bufs[y].blocknr == block && !bufs[y].uptodate && !bufs[y].lock
  }

  /** When a buffer of the key is cached and up to date, a quiet getblk
      returns that very buffer, still up to date. */
  lemma CachedHit(before: PoolState, after: PoolState, r: int, dev: int, block: int)
    requires Inv(before) && CachedUptodate(before.bufs, dev, block) && GetblkQuiet(before, after, r, dev, block)
    requires after.bufs[r].dev == dev && after.bufs[r].blocknr == block
    ensures after.bufs[r].uptodate
  {
    var y :| 0 <= y < |before.bufs| && Hashed(before.bufs[y]) && before.bufs[y].dev == dev &&
      before.bufs[y].blocknr == block && before.bufs[y].uptodate;
    assert !Absent(before.bufs, dev, block);
    assert before.bufs[r].dev == dev && before.bufs[r].blocknr == block;
    assert !DiffKeys(before.bufs, r, y);
  }

  /** What getblk does when no other task runs meanwhile: a buffer of the key
      that is cached only gains a reference and nothing else in the cache
      changes; otherwise the least recently used free buffer is claimed for
      the key, and the whole cache is what the claim leaves (Claimed). */
  ghost predicate GetblkQuiet(before: PoolState, after: PoolState, r: int, dev: int, block: int)
  {
    0 <= r < |before.bufs| &&
    if Absent(before.bufs, dev, block) then
      FirstFree(before, r) && ClaimReady(before, r, dev, block) && after == Claimed(before, r, dev, block)
    else after == before.(bufs := before.bufs[r := before.bufs[r].(count := before.bufs[r].count + 1)])
  }

  /** A cached buffer of the key that only gained a reference is getblk's
      quiet outcome. */
  lemma HitQuiet(before: PoolState, after: PoolState, r: int, dev: int, block: int)
    requires 0 <= r < |before.bufs| && Hashed(before.bufs[r])
    requires before.bufs[r].dev == dev && before.bufs[r].blocknr == block
    requires after == before.(bufs := before.bufs[r := before.bufs[r].(count := before.bufs[r].count + 1)])
    ensures GetblkQuiet(before, after, r, dev, block)
  {
  }

  /** On a miss, the quiet getblk leaves the claimed buffer fresh for the key
      and at the tail of the free ring, and every other buffer as it was but
      for its links. */
  lemma QuietMiss(before: PoolState, after: PoolState, r: int, dev: int, block: int)
    requires GetblkQuiet(before, after, r, dev, block) && Absent(before.bufs, dev, block)
    ensures Inv(after) && |after.bufs| == |before.bufs| && Fresh(after.bufs[r], dev, block)
    ensures after.ring == Drop(before.ring, IndexOf(before.ring, r)) + [r]
    ensures forall y :: 0 <= y < |before.bufs| && y != r ==> LinksOnly(after.bufs[y], before.bufs[y])
  {
    ClaimedOk(before, r, dev, block);
  }

  /** Kilobyte k of a 4 KB page `after` is a copy of from[k]'s data where
      copied[k] holds, and as in `before` elsewhere: what bread_page leaves. */
  ghost predicate PageFrom(after: seq<Byte>, before: seq<Byte>, copied: seq<bool>, from: seq<BufferHead>)
  {
    |after| == 4 * BLOCK_SIZE && |before| == 4 * BLOCK_SIZE && |copied| == 4 && |from| == 4 &&
    (forall k :: 0 <= k < 4 && copied[k] ==> |from[k].data| == BLOCK_SIZE) &&
    forall j :: 0 <= j < |after| ==>
      after[j] == if copied[j / BLOCK_SIZE] then from[j / BLOCK_SIZE].data[j % BLOCK_SIZE] else before[j]
  }

/** The buffers bread_page got for the first |bh| block numbers: none for
      a zero block number, otherwise a buffer with that key. */
  predicate Got(bufs: seq<BufferHead>, dev: int, blocks: seq<int>, bh: seq<int>)
  {
    |bh| <= |blocks| &&
    forall k :: 0 <= k < |bh| ==>
      (bh[k] == -1 <==> blocks[k] == 0) &&
      (bh[k] != -1 ==> 0 <= bh[k] < |bufs| && bufs[bh[k]].dev == dev && bufs[bh[k]].blocknr == blocks[k])
  }

  /** The kilobytes bread_page copied came from up-to-date buffers of their
      (nonzero) block numbers. */
  ghost predicate CopiedFrom(dev: int, blocks: seq<int>, copied: seq<bool>, from: seq<BufferHead>)
    requires |blocks| == 4 && |copied| == 4 && |from| == 4
  {
    forall k :: 0 <= k < 4 && copied[k] ==>
      blocks[k] != 0 && from[k].dev == dev && from[k].blocknr == blocks[k] && from[k].uptodate
  }

  /** What bread_page decided for the first n kilobytes: none for a zero
      block number; for any other, `from` is its buffer as the wait for it
      left it, and the kilobyte was copied exactly when that buffer was up
      to date. Nothing from n on is copied yet. */
  ghost predicate PageSeen(dev: int, blocks: seq<int>, copied: seq<bool>, from: seq<BufferHead>, n: int)
    requires |blocks| == 4 && |copied| == 4 && |from| == 4
  {
    (forall k :: 0 <= k < 4 && (n <= k || blocks[k] == 0) ==> !copied[k]) &&
    forall k :: 0 <= k < n && k < 4 && blocks[k] != 0 ==>
      from[k].dev == dev && from[k].blocknr == blocks[k] && (copied[k] <==> from[k].uptodate)
  }

  /** bread_page's page and its record after the first n kilobytes. */
  ghost predicate PageDone(after: seq<Byte>, before: seq<Byte>, dev: int, blocks: seq<int>,
                           copied: seq<bool>, from: seq<BufferHead>, n: int)
  {
    |blocks| == 4 && |copied| == 4 && |from| == 4 &&
    PageFrom(after, before, copied, from) && CopiedFrom(dev, blocks, copied, from) && PageSeen(dev, blocks, copied, from, n)
  }

  /** Before bread_page's second loop nothing is copied. */
  lemma PageStart(page: seq<Byte>, dev: int, blocks: seq<int>, h: BufferHead)
    requires |page| == 4 * BLOCK_SIZE && |blocks| == 4
    ensures PageDone(page, page, dev, blocks, [false, false, false, false], [h, h, h, h], 0)
  {
  }

  /** Recording the buffer of a kilobyte that was not copied changes
      nothing bread_page left in the page. */
  lemma PageFromUncopied(after: seq<Byte>, before: seq<Byte>, copied: seq<bool>, from: seq<BufferHead>,
                         i: int, f: BufferHead)
    requires PageFrom(after, before, copied, from) && 0 <= i < 4 && !copied[i]
    ensures PageFrom(after, before, copied, from[i := f])
  {
    forall j | 0 <= j < |after|
      ensures after[j] == if copied[j / BLOCK_SIZE] then from[i := f][j / BLOCK_SIZE].data[j % BLOCK_SIZE] else before[j]
    {
      if j / BLOCK_SIZE != i {
        assert from[i := f][j / BLOCK_SIZE] == from[j / BLOCK_SIZE];
      }
    }
  }

  /** Holding the buffers got keeps them got. */
  lemma GotKept(before: seq<BufferHead>, after: seq<BufferHead>, held: multiset<int>,
                dev: int, blocks: seq<int>, bh: seq<int>)
    requires Got(before, dev, blocks, bh) && Keeps(before, after, held) && Refs(bh) <= held
    ensures Got(after, dev, blocks, bh)
  {
    forall k | 0 <= k < |bh| && bh[k] != -1
      ensures after[bh[k]].dev == dev && after[bh[k]].blocknr == blocks[k]
    {
      RefsHas(bh, k);
    }
  }

  /** One more buffer got, r (-1 for a zero block number), with the ones
      got before still held. */
  lemma GotStep(before: seq<BufferHead>, after: seq<BufferHead>, held: multiset<int>,
                dev: int, blocks: seq<int>, bh: seq<int>, r: int)
    requires Got(before, dev, blocks, bh) && |bh| < |blocks| && Keeps(before, after, held + Refs(bh))
    requires r == -1 <==> blocks[|bh|] == 0
    requires r != -1 ==>
      0 <= r < |after| && after[r].dev == dev && after[r].blocknr == blocks[|bh|] &&
      Owns(after, held + Refs(bh) + multiset{r})
    requires r == -1 ==> Owns(after, held + Refs(bh))
    ensures Got(after, dev, blocks, bh + [r]) && Owns(after, held + Refs(bh + [r]))
  {
    GotKept(before, after, held + Refs(bh), dev, blocks, bh);
    GotSnoc(after, dev, blocks, bh, r);
    RefsSnoc(bh, r);
    if r != -1 {
      assert held + Refs(bh + [r]) == held + Refs(bh) + multiset{r};
    } else {
      assert held + Refs(bh + [r]) == held + Refs(bh);
    }
  }

  lemma GotSnoc(bufs: seq<BufferHead>, dev: int, blocks: seq<int>, bh: seq<int>, r: int)
    requires Got(bufs, dev, blocks, bh) && |bh| < |blocks|
    requires r == -1 <==> blocks[|bh|] == 0
    requires r != -1 ==> 0 <= r < |bufs| && bufs[r].dev == dev && bufs[r].blocknr == blocks[|bh|]
    ensures Got(bufs, dev, blocks, bh + [r])
  {
  }

  /** The buffer bread_page's second loop reaches at turn i still has its key. */
  lemma GotAt(before: seq<BufferHead>, after: seq<BufferHead>, held: multiset<int>,
              dev: int, blocks: seq<int>, bh: seq<int>, i: int)
    requires Got(before, dev, blocks, bh) && 0 <= i < |bh|
    requires Keeps(before, after, held + Refs(bh[i..]))
    ensures bh[i] == -1 <==> blocks[i] == 0
    ensures bh[i] != -1 ==> 0 <= bh[i] < |after| && after[bh[i]].dev == dev && after[bh[i]].blocknr == blocks[i]
  {
    RefsFront(bh, i);
  }

  /** Copying one more kilobyte i (or none, when c is false) keeps PageFrom. */
  lemma PageFromStep(now: seq<Byte>, before: seq<Byte>, orig: seq<Byte>, copied: seq<bool>, from: seq<BufferHead>,
                     i: int, c: bool, f: BufferHead)
    requires PageFrom(before, orig, copied, from) && 0 <= i < 4 && |now| == |before|
    requires c ==> |f.data| == BLOCK_SIZE
    requires forall j :: 0 <= j < |now| ==>
      now[j] == if c && i * BLOCK_SIZE <= j < (i + 1) * BLOCK_SIZE then f.data[j - i * BLOCK_SIZE] else before[j]
    ensures PageFrom(now, orig, if c then copied[i := true] else copied, if c then from[i := f] else from)
  {
    var copied', from' := if c then copied[i := true] else copied, if c then from[i := f] else from;
    forall j | 0 <= j < |now|
      ensures now[j] == if copied'[j / BLOCK_SIZE] then from'[j / BLOCK_SIZE].data[j % BLOCK_SIZE] else orig[j]
    {
      var q := j / BLOCK_SIZE;
      assert q * BLOCK_SIZE <= j < (q + 1) * BLOCK_SIZE;
      assert i * BLOCK_SIZE <= j < (i + 1) * BLOCK_SIZE <==> q == i;
    }
  }

  /** Putting b back into the queues keeps the request tables consistent
      with the pool, since it changes no lock. */
  lemma EnqueuedKeeps(p: PoolState, q: (seq<Request>, seq<BlkDev>, seq<seq<int>>), b: int)
    requires Detached(p, b) && QInv(q.0, q.1, q.2, p.bufs, -1)
    ensures Insertable(p, b) && p.bufs[p.freeList].prevFree == p.ring[|p.ring| - 1]
    ensures Inv(Enqueued(p, b)) && QInv(q.0, q.1, q.2, Enqueued(p, b).bufs, -1)
  {
    DetachedInsertable(p, b);
    EnqueuedOk(p, b);
    LocksSame(q.0, q.1, q.2, p.bufs, Enqueued(p, b).bufs, -1);
  }

  class Cache {
    const pool: array<BufferHead>
    /** hash_table[NR_HASH]: head of each hash chain (-1 = NULL). */
    const hashTable: array<int>
    var freeList: int
    ghost var ring: seq<int>
    ghost var chains: seq<seq<int>>
    /** The request array and device table of ll_rw_blk.c. */
    const rq: RequestQueue
    /** What the rest of the system does while this task sleeps. */
    const env: Env

    /** buffer_init(buffer_end), with the buffer heads starting at address
        `startBuffer` (the end of the kernel image): lay out heads and data
        blocks, link every buffer into one free ring in array order, and
        empty every hash bucket. */
    constructor BufferInit(startBuffer: int, bufferEnd: int, q: RequestQueue, e: Env)
      requires 0 <= startBuffer
      requires (startBuffer + 2 * (HEAD_SIZE + BLOCK_SIZE) <= Top(bufferEnd) <= 0xA0000) ||
               (Top(bufferEnd) >= 0x100000 + 2 * BLOCK_SIZE && startBuffer + 2 * HEAD_SIZE <= 0x100000)
      requires q.Idle()
      ensures rq == q && env == e && Valid()
      ensures LaidOut(startBuffer, Top(bufferEnd), Addrs())
      ensures forall b :: 0 <= b < pool.Length ==> pool[b] == FreshHead(Addrs(), b)
      ensures freeList == 0 && forall h :: 0 <= h < NR_HASH ==> hashTable[h] == -1
    {
      var addrs := Layout(startBuffer, Top(bufferEnd));
      var n := |addrs|;
      pool := new BufferHead[n](i requires 0 <= i < n => FreshHead(addrs, i));
      hashTable := new int[NR_HASH](_ => -1);
      freeList := 0;
      ring := seq(n, i => i);
      chains := seq(NR_HASH, _ => []);
      rq, env := q, e;
      new;
      assert Addrs() == addrs;
      assert pool[..] == FreshPool(addrs);
      assert hashTable[..] == seq(NR_HASH, _ => -1);
      FreshPoolOk(addrs);
      rq.IdleValid(pool);
    }

    /** The data block addresses, in array order. */
    ghost function Addrs(): seq<int>
      reads this, pool
    {
      seq(pool.Length, i requires 0 <= i < pool.Length reads pool => pool[i].addr)
    }

    ghost function State(): PoolState
      reads this, pool, hashTable
    {
      PoolState(pool[..], hashTable[..], freeList, ring, chains)
    }

    /** With the cache object and the hash table untouched, the state differs
        from the earlier one at most in the buffer heads. */
    twostate lemma HeadsOnly()
      requires unchanged(this, hashTable)
      ensures State() == old(State()).(bufs := pool[..])
    {
    }

    /** The request slots, the device table and the queues of ll_rw_blk.c. */
    ghost function Requests(): (seq<Request>, seq<BlkDev>, seq<seq<int>>)
      reads rq, rq.request, rq.blkDev
    {
      (rq.request[..], rq.blkDev[..], rq.queues)
    }

    ghost predicate Valid()
      reads this, pool, hashTable, rq, rq.request, rq.blkDev
    {
      hashTable.Length == NR_HASH && Inv(State()) && rq.Valid(pool)
    }

    /** ll_rw_block accepts the buffers of device dev: its major is below
        NR_BLK_DEV and has a request function. */
    predicate HasDriver(dev: int)
      reads rq, rq.blkDev
    {
      rq.blkDev.Length == NR_BLK_DEV && Major(dev) < NR_BLK_DEV && rq.blkDev[Major(dev)].hasRequestFn
    }

    twostate predicate DriversKept()
      reads rq, rq.blkDev
    {
      rq.blkDev.Length == NR_BLK_DEV &&
      forall m :: 0 <= m < NR_BLK_DEV ==> rq.blkDev[m].hasRequestFn == old(rq.blkDev[m].hasRequestFn)
    }

    /** The cache is the pool r over request tables q. */
    lemma StateFrom(r: PoolState, q: (seq<Request>, seq<BlkDev>, seq<seq<int>>))
      requires QInv(q.0, q.1, q.2, r.bufs, -1)
      requires pool[..] == r.bufs && hashTable[..] == r.hash && freeList == r.freeList
      requires ring == r.ring && chains == r.chains && Requests() == q
      ensures State() == r && rq.Valid(pool)
    {
    }

    /** A change of flags and counts only keeps the cache well formed. */
    lemma ShapeKept(before: PoolState)
      requires Inv(before) && hashTable.Length == NR_HASH && SameShape(pool[..], before.bufs)
      requires hashTable[..] == before.hash && freeList == before.freeList
      requires ring == before.ring && chains == before.chains
      ensures Inv(State())
    {
      InvSameShape(before, pool[..]);
      assert State() == before.(bufs := pool[..]);
    }

    /** One sleep of this task, with `held` the references it holds and
        `pinned` those it has just taken and will re-check. The next step
        is taken: a change by other tasks is adopted if it satisfies Rely;
        any other step goes to the request layer. */
    method Sleep(held: multiset<int>, pinned: multiset<int>) returns (woke: bool)
      requires Valid() && Owns(pool[..], held + pinned)
      modifies this, pool, hashTable, rq, rq.request, rq.blkDev, env
      ensures Valid() && DriversKept()
      ensures Owns(pool[..], held + pinned) && Keeps(old(pool[..]), pool[..], held)
      ensures woke <==> old(env.steps) != []
      ensures env.steps == if woke then old(env.steps)[1..] else old(env.steps)
      ensures !woke ==> pool[..] == old(pool[..]) && unchanged(this, hashTable)
    {
      if env.steps == [] {
        return false;
      }
      var step := env.steps[0];
      if step.CacheChange? && Rely(pool[..], step.p, held, pinned) {
        env.steps := env.steps[1..];
        Adopt(step.p, held, pinned);
        return true;
      }
      woke := PassOn();
    }

    /** The pool becomes p, as changed by other tasks. */
    method Adopt(p: PoolState, held: multiset<int>, pinned: multiset<int>)
      requires Valid() && Rely(pool[..], p, held, pinned)
      modifies this, pool, hashTable
      ensures Valid() && State() == p
      ensures Owns(pool[..], held + pinned) && Keeps(old(pool[..]), pool[..], held)
    {
      ghost var before := pool[..];
      ghost var rs, ds, qs := rq.request[..], rq.blkDev[..], rq.queues;
      assert QInv(rs, ds, qs, before, -1);
      forall i | 0 <= i < pool.Length {
        pool[i] := p.bufs[i];
      }
      forall h | 0 <= h < hashTable.Length {
        hashTable[h] := p.hash[h];
      }
      freeList, ring, chains := p.freeList, p.ring, p.chains;
      assert pool[..] == p.bufs && hashTable[..] == p.hash;
      LocksSame(rs, ds, qs, before, pool[..], -1);
      assert rq.request[..] == rs && rq.blkDev[..] == ds && rq.queues == qs;
      assert State() == p;
      RelyKeeps(before, p, held, pinned);
    }

    /** A step other than an adoptable change goes to the request layer. */
    method PassOn() returns (woke: bool)
      requires Valid()
      modifies rq, rq.request, rq.blkDev, pool, env
      ensures Valid() && DriversKept()
      ensures forall b :: 0 <= b < pool.Length ==> FlagsOnly(pool[b], old(pool[b]))
      ensures woke <==> old(env.steps) != []
      ensures env.steps == if woke then old(env.steps)[1..] else old(env.steps)
      ensures !woke ==> pool[..] == old(pool[..])
    {
      ghost var before := State();
      woke := rq.Sleep(pool, env, -1);
      FlagsOnlyShape(pool[..], before.bufs);
      ShapeKept(before);
    }

    /** wait_on_buffer: sleep while buffer b is locked. */
    method WaitOnBuffer(b: int, held: multiset<int>, pinned: multiset<int>) returns (woke: bool)
      requires Valid() && 0 <= b < pool.Length && Owns(pool[..], held + pinned)
      modifies this, pool, hashTable, rq, rq.request, rq.blkDev, env
      ensures Valid() && DriversKept()
      ensures Owns(pool[..], held + pinned) && Keeps(old(pool[..]), pool[..], held)
      ensures |env.steps| <= old(|env.steps|)
      ensures woke ==> !pool[b].lock
      ensures !woke ==> env.steps == []
      ensures old(pool[b].lock) && woke ==> |env.steps| < old(|env.steps|)
      ensures !old(pool[b].lock) ==> woke && env.steps == old(env.steps)
      ensures |env.steps| == old(|env.steps|) ==> pool[..] == old(pool[..]) && unchanged(this, hashTable)
    {
      woke := true;
      while pool[b].lock
        invariant Valid() && DriversKept()
        invariant Owns(pool[..], held + pinned) && Keeps(old(pool[..]), pool[..], held)
        invariant |env.steps| <= old(|env.steps|)
        invariant |env.steps| == old(|env.steps|) ==> pool[..] == old(pool[..]) && unchanged(this, hashTable)
        invariant old(pool[b].lock) ==> pool[b].lock || |env.steps| < old(|env.steps|)
        invariant !old(pool[b].lock) ==> !pool[b].lock && env.steps == old(env.steps)
        invariant woke
        decreases |env.steps|
      {
        woke := Sleep(held, pinned);
        if !woke {
          return;
        }
      }
    }

    /** find_buffer: walk the chain of bucket HashFn(dev, block) for a
        buffer with that key. */
    method FindBuffer(dev: int, block: int) returns (r: int)
      requires Valid() && 0 <= dev < 0x1_0000 && 0 <= block < 0x8000_0000
      ensures -1 <= r < pool.Length
      ensures r == -1 <==> Absent(pool[..], dev, block)
      ensures r != -1 ==> Hashed(pool[r]) && pool[r].dev == dev && pool[r].blocknr == block &&
                          r in chains[HashFn(dev, block)]
    {
      var h := HashFn(dev, block);
      ghost var c := chains[h];
      assert ChainOk(pool[..], hashTable[h], c, h);
      r := hashTable[h];
      ghost var k := 0;
      while r != -1
        invariant 0 <= k <= |c| && r == (if k < |c| then c[k] else -1)
        invariant forall j :: 0 <= j < k ==> !(pool[c[j]].dev == dev && pool[c[j]].blocknr == block)
        decreases |c| - k
      {
        assert ChainLinkAt(pool[..], c, h, k);
        if pool[r].dev == dev && pool[r].blocknr == block {
          return;
        }
        r := pool[r].next;
        k := k + 1;
      }
      forall y | 0 <= y < pool.Length
        ensures !(Hashed(pool[y]) && pool[y].dev == dev && pool[y].blocknr == block)
      {
        if Hashed(pool[y]) && BucketOf(pool[y]) == h {
          var j := IndexOf(c, y);
          assert pool[c[j]] == pool[y];
        }
      }
    }

    /** The victim scan of getblk: go once round the free ring from the
        free-list head, keep the first buffer with b_count == 0 of least
        BADNESS, and stop early at one of BADNESS 0. */
    method SelectVictim() returns (r: int)
      requires RingOk(pool[..], freeList, ring)
      ensures -1 <= r < pool.Length
      ensures r == -1 <==> forall b :: 0 <= b < pool.Length ==> pool[b].count > 0
      ensures r != -1 ==>
        pool[r].count == 0 && r in ring &&
        (forall k :: 0 <= k < |ring| && pool[ring[k]].count == 0 ==> Badness(pool[r]) <= Badness(pool[ring[k]])) &&
        (forall k :: 0 <= k < IndexOf(ring, r) && pool[ring[k]].count == 0 ==> Badness(pool[ring[k]]) > Badness(pool[r]))
    {
      var tmp := freeList;
      ghost var k := 0;
      ghost var j := -1;
      r := -1;
      while true
        invariant 0 <= k < |ring| && tmp == ring[k]
        invariant r == -1 <==> j == -1
        invariant r == -1 ==> forall u :: 0 <= u < k ==> pool[ring[u]].count > 0
        invariant r != -1 ==>
          0 <= j < k && ring[j] == r && pool[r].count == 0 &&
          (forall u :: 0 <= u < k && pool[ring[u]].count == 0 ==> Badness(pool[r]) <= Badness(pool[ring[u]])) &&
          (forall u :: 0 <= u < j && pool[ring[u]].count == 0 ==> Badness(pool[ring[u]]) > Badness(pool[r]))
        decreases |ring| - k
      {
        if pool[tmp].count == 0 && (r == -1 || Badness(pool[tmp]) < Badness(pool[r])) {
          r, j := tmp, k;
          if Badness(pool[tmp]) == 0 {
            break;
          }
        }
        assert RingLinkAt(pool[..], ring, k);
        tmp := pool[tmp].nextFree;
        k := k + 1;
        if tmp == freeList {
          assert k == |ring|;
          break;
        }
      }
      if r == -1 {
        forall b | 0 <= b < pool.Length
          ensures pool[b].count > 0
        {
          var u := IndexOf(ring, b);
          assert pool[ring[u]] == pool[b];
        }
      } else {
        assert IndexOf(ring, r) == j;
      }
    }

    /** The stores of remove_from_queues on the buffer heads, the hash
        table and the free-list head. */
    method Unlink(b: int)
      requires hashTable.Length == NR_HASH && 0 <= b < pool.Length
      requires LinksInRange(pool[..], b) && KeyInRange(pool[b])
      requires pool[b].prev != b && pool[b].next != b && pool[b].prevFree != b && pool[b].nextFree != b
      modifies this`freeList, pool, hashTable
      ensures pool[..] == UnlinkedBufs(old(pool[..]), b) && hashTable[..] == HashWithout(old(pool[..]), old(hashTable[..]), b)
      ensures freeList == if old(freeList) == b then old(pool[b]).nextFree else old(freeList)
    {
      var x := pool[b];
      if x.next != -1 {
        pool[x.next] := pool[x.next].(prev := x.prev);
      }
      if x.prev != -1 {
        pool[x.prev] := pool[x.prev].(next := x.next);
      }
      assert pool[..] == Relinked(old(pool[..]), x.prev, x.next);
      var h := HashFn(x.dev, x.blocknr);
      if hashTable[h] == b {
        hashTable[h] := x.next;
      }
      if x.prevFree == -1 || x.nextFree == -1 {
        assert false;
      }
      ghost var s := pool[..];
      pool[x.prevFree] := pool[x.prevFree].(nextFree := x.nextFree);
      pool[x.nextFree] := pool[x.nextFree].(prevFree := x.prevFree);
      assert pool[..] == RelinkedFree(s, x.prevFree, x.nextFree);
      if freeList == b {
        freeList := x.nextFree;
      }
    }

    /** The cache with buffer b out of both queues. */
    ghost predicate DetachedValid(b: int)
      reads this, pool, hashTable, rq, rq.request, rq.blkDev
    {
      hashTable.Length == NR_HASH && Detached(State(), b) && rq.Valid(pool)
    }

    /** remove_from_queues(b): unlink b from its hash chain (moving the
        bucket head on if it was b) and from the free ring (moving the
        free-list head on if it was b). The panic for a NULL free link cannot
        happen in a well-formed pool. */
    method RemoveFromQueues(b: int)
      requires Valid() && 0 <= b < pool.Length
      modifies this, pool, hashTable
      ensures Queued(old(State()), b) && State() == Unqueued(old(State()), b) && DetachedValid(b)
    {
      ghost var p := State();
      ghost var q := Requests();
      UnqueuedKeeps(p, q, b);
      NeighbourFacts(p, b);
      ghost var r := Unqueued(p, b);
      Unlink(b);
      ring, chains := r.ring, r.chains;
      StateFrom(r, q);
    }

    /** The stores of insert_into_queues on the buffer heads and the hash
        table (with the store into the old bucket head guarded). */
    method Splice(b: int)
      requires hashTable.Length == NR_HASH && 0 <= b < pool.Length && KeyInRange(pool[b])
      requires 0 <= freeList < pool.Length && 0 <= pool[freeList].prevFree < pool.Length
      requires b != freeList && b != pool[freeList].prevFree
      requires Hashed(pool[b]) ==> -1 <= hashTable[BucketOf(pool[b])] < pool.Length && hashTable[BucketOf(pool[b])] != b
      modifies pool, hashTable
      ensures pool[..] == BufferQueues.Spliced(old(pool[..]), b, freeList, old(pool[freeList].prevFree), HeadOf(old(pool[..]), old(hashTable[..]), b))
      ensures hashTable[..] == HashWith(old(pool[..]), old(hashTable[..]), b)
    {
      var fl := freeList;
      var last := pool[fl].prevFree;
      pool[b] := pool[b].(nextFree := fl, prevFree := last);
      pool[last] := pool[last].(nextFree := b);
      pool[fl] := pool[fl].(prevFree := b);
      pool[b] := pool[b].(prev := -1, next := -1);
      if pool[b].dev != 0 {
        var h := HashFn(pool[b].dev, pool[b].blocknr);
        var head := hashTable[h];
        pool[b] := pool[b].(next := head);
        hashTable[h] := b;
        if head != -1 {
          pool[head] := pool[head].(prev := b);
        }
      }
    }

    /** insert_into_queues(b), with the store into the old bucket head done
        only when there is one: b goes at the tail of the free ring and, when
        its device is non-zero, at the head of the chain of its key. */
    method InsertIntoQueues(b: int)
      requires DetachedValid(b)
      modifies this, pool, hashTable
      ensures Insertable(old(State()), b) && State() == Enqueued(old(State()), b) && Valid()
    {
      ghost var p := State();
      ghost var q := Requests();
      EnqueuedKeeps(p, q, b);
      ghost var r := Enqueued(p, b);
      Splice(b);
      ring, chains := r.ring, r.chains;
      StateFrom(r, q);
    }

    /** A store into buffer head b that changes only its uptodate and dirt
        flags and its count. */
    method Touch(b: int, nb: BufferHead)
      requires Valid() && 0 <= b < pool.Length
      requires nb == pool[b].(uptodate := nb.uptodate, dirt := nb.dirt, count := nb.count)
      modifies pool
      ensures pool[..] == old(pool[..])[b := nb] && Valid()
    {
      ghost var before := State();
      ghost var q := Requests();
      pool[b] := nb;
      LocksSame(q.0, q.1, q.2, before.bufs, pool[..], -1);
      ShapeKept(before);
    }

    /** The key stores of getblk on the detached buffer b. */
    method Rekey(b: int, dev: int, block: int)
      requires DetachedValid(b) && 0 <= dev < 0x1_0000 && 0 <= block < 0x8000_0000
      requires Absent(pool[..], dev, block)
      modifies pool
      ensures State() == Rekeyed(old(State()), b, dev, block) && DetachedValid(b)
    {
      ghost var p := State();
      ghost var q := Requests();
      RekeyedDetached(p, b, pool[b].(dev := dev, blocknr := block));
      pool[b] := pool[b].(dev := dev, blocknr := block);
      LocksSame(q.0, q.1, q.2, p.bufs, pool[..], -1);
      StateFrom(Rekeyed(p, b, dev, block), q);
    }

    /** The end of getblk: buffer b, unused, unlocked and clean, with no
        buffer of key (dev, block) in the cache, gets count 1 and cleared
        flags, leaves the queues, takes the new key and goes back in. */
    method Claim(b: int, dev: int, block: int)
      requires Valid() && ClaimReady(State(), b, dev, block)
      modifies this, pool, hashTable
      ensures State() == Claimed(old(State()), b, dev, block) && Valid()
    {
      ghost var p := State();
      ClaimStages(p, b, dev, block);
      Touch(b, pool[b].(count := 1, dirt := false, uptodate := false));
      assert State() == Flagged(p, b);
      RemoveFromQueues(b);
      Rekey(b, dev, block);
      InsertIntoQueues(b);
    }

    /** ll_rw_block(rw, b) on a buffer of the cache. Only flags change, and
        with no other task running only b's; a READ or WRITE that has work to
        do on an unlocked buffer of a device with a driver leaves b locked
        and clean unless the task sleeps for good. */
    method LlRwBlock(rw: int, b: int) returns (st: Status)
      requires Valid() && 0 <= b < pool.Length
      modifies rq, rq.request, rq.blkDev, pool, env
      ensures Valid() && DriversKept()
      ensures forall y :: 0 <= y < pool.Length ==> FlagsOnly(pool[y], old(pool[y]))
      ensures |env.steps| <= old(|env.steps|)
      ensures |env.steps| == old(|env.steps|) ==> forall y :: 0 <= y < pool.Length && y != b ==> pool[y] == old(pool[y])
      ensures rw == READ || rw == WRITE || rw == READA || rw == WRITEA ==> st == Done || st == Asleep
      ensures st == Asleep ==> env.steps == []
      ensures !HasDriver(pool[b].dev) ==> st == Done && pool[..] == old(pool[..]) && env.steps == old(env.steps)
      ensures (rw == READA || rw == WRITEA) && old(pool[b].lock) ==>
                st == Done && pool[..] == old(pool[..]) && env.steps == old(env.steps)
      ensures (rw == READ || rw == WRITE) && HasDriver(pool[b].dev) && !old(pool[b].lock) &&
              ((rw == WRITE && old(pool[b].dirt)) || (rw == READ && !old(pool[b].uptodate))) ==>
                st == Asleep || (pool[b].lock && !pool[b].dirt)
    {
      ghost var before := State();
      assert KeyInRange(pool[b]);
      var slot;
      st, slot := rq.LlRwBlock(rw, b, pool, env);
      FlagsOnlyShape(pool[..], before.bufs);
      ShapeKept(before);
    }

    /** sync_dev's loop body for buffer i: if it is of device d, wait for it
        and, if it is still of d and dirty, write it. */
    method SyncOne(d: int, i: int, held: multiset<int>) returns (st: Status)
      requires Valid() && Owns(pool[..], held) && 0 <= i < pool.Length
      modifies this, pool, hashTable, rq, rq.request, rq.blkDev, env
      ensures Valid() && DriversKept() && Owns(pool[..], held) && Keeps(old(pool[..]), pool[..], held)
      ensures |env.steps| <= old(|env.steps|) && (st == Done || (st == Asleep && env.steps == []))
      ensures st == Done && |env.steps| == old(|env.steps|) ==>
        unchanged(this, hashTable) && Synced(d, old(pool[i]), pool[i], HasDriver(d)) &&
        forall y :: 0 <= y < pool.Length && y != i ==> pool[y] == old(pool[y])
    {
      st := Done;
      if pool[i].dev == d {
        var woke := WaitOnBuffer(i, held, multiset{});
        if !woke {
          return Asleep;
        }
        ghost var waited := pool[..];
        st := SyncWrite(d, i, held);
        KeepsTrans(old(pool[..]), waited, pool[..], held);
      }
    }

    /** The write of sync_dev's loop body, after the wait: buffer i, unlocked,
        is written when it is still of device d and dirty. */
    method SyncWrite(d: int, i: int, held: multiset<int>) returns (st: Status)
      requires Valid() && Owns(pool[..], held) && 0 <= i < pool.Length && !pool[i].lock
      modifies pool, rq, rq.request, rq.blkDev, env
      ensures Valid() && DriversKept() && Owns(pool[..], held) && Keeps(old(pool[..]), pool[..], held)
      ensures |env.steps| <= old(|env.steps|) && (st == Done || (st == Asleep && env.steps == []))
      ensures st == Done && |env.steps| == old(|env.steps|) ==>
        (old(pool[i].dev) == d ==> Synced(d, old(pool[i]), pool[i], HasDriver(d))) &&
        forall y :: 0 <= y < pool.Length && y != i ==> pool[y] == old(pool[y])
    {
      st := Done;
      if pool[i].dev == d && pool[i].dirt {
        st := LlRwBlock(WRITE, i);
      }
    }

    /** One pass of sync_dev(d) over the whole pool. When no other task ran
        during the pass, every buffer changed as Synced says. */
    method SyncPass(d: int, held: multiset<int>) returns (st: Status)
      requires Valid() && Owns(pool[..], held)
      modifies this, pool, hashTable, rq, rq.request, rq.blkDev, env
      ensures Valid() && DriversKept() && Owns(pool[..], held) && Keeps(old(pool[..]), pool[..], held)
      ensures |env.steps| <= old(|env.steps|) && (st == Done || (st == Asleep && env.steps == []))
      ensures st == Done && |env.steps| == old(|env.steps|) ==>
        unchanged(this, hashTable) && forall y :: 0 <= y < pool.Length ==> Synced(d, old(pool[y]), pool[y], HasDriver(d))
    {
      var i := 0;
      while i < pool.Length
        invariant 0 <= i <= pool.Length
        invariant Valid() && DriversKept() && Owns(pool[..], held) && Keeps(old(pool[..]), pool[..], held)
        invariant |env.steps| <= old(|env.steps|)
        invariant |env.steps| == old(|env.steps|) ==>
          unchanged(this, hashTable) &&
          (forall y :: i <= y < pool.Length ==> pool[y] == old(pool[y])) &&
          (forall y :: 0 <= y < i ==> Synced(d, old(pool[y]), pool[y], HasDriver(d)))
      {
        ghost var here := pool[..];
        st := SyncOne(d, i, held);
        KeepsTrans(old(pool[..]), here, pool[..], held);
        if st == Asleep {
          return;
        }
        i := i + 1;
      }
      st := Done;
    }

    /** sync_dev(d): two passes over the pool (the inode write-back between
        them is not part of this model). `mid` is the pool between the
        passes and `midLeft` the number of environment steps left then. A
        pass during which no other task ran wrote exactly the dirty buffers
        of d (when d has a driver) and changed nothing else. When no other
        task ran at all, nothing changed: no buffer of d was locked, nor
        dirty with a driver to write it. */
    method SyncDev(d: int, held: multiset<int>) returns (st: Status, ghost mid: seq<BufferHead>, ghost midLeft: int)
      requires Valid() && Owns(pool[..], held)
      modifies this, pool, hashTable, rq, rq.request, rq.blkDev, env
      ensures Valid() && DriversKept() && Owns(pool[..], held) && Keeps(old(pool[..]), pool[..], held)
      ensures |env.steps| <= old(|env.steps|) && (st == Done || (st == Asleep && env.steps == []))
      ensures st == Done && |env.steps| == old(|env.steps|) ==>
        pool[..] == old(pool[..]) && unchanged(this, hashTable) &&
        forall y :: 0 <= y < pool.Length && old(pool[y]).dev == d ==> !old(pool[y]).lock && !(old(pool[y]).dirt && HasDriver(d))
      ensures st == Done ==> |mid| == pool.Length && |env.steps| <= midLeft <= old(|env.steps|)
      ensures st == Done && midLeft == old(|env.steps|) ==>
        forall y :: 0 <= y < |mid| ==> Synced(d, old(pool[y]), mid[y], HasDriver(d))
      ensures st == Done && |env.steps| == midLeft ==>
        forall y :: 0 <= y < |mid| ==> Synced(d, mid[y], pool[y], HasDriver(d))
    {
      st := SyncPass(d, held);
      mid, midLeft := pool[..], |env.steps|;
      if st == Asleep {
        return;
      }
      st := SyncPass(d, held);
      KeepsTrans(old(pool[..]), mid, pool[..], held);
      if st == Done && |env.steps| == old(|env.steps|) {
        forall y | 0 <= y < pool.Length
          ensures pool[y] == old(pool[y]) && (old(pool[y]).dev == d ==> !old(pool[y]).lock && !(old(pool[y]).dirt && HasDriver(d)))
        {
          SyncedTwice(d, old(pool[y]), mid[y], pool[y], HasDriver(d));
        }
        assert pool[..] == old(pool[..]);
      }
    }

    /** sys_sync's loop body for buffer i: wait for it and write it if dirty. */
    method FlushOne(i: int, held: multiset<int>) returns (st: Status)
      requires Valid() && Owns(pool[..], held) && 0 <= i < pool.Length
      modifies this, pool, hashTable, rq, rq.request, rq.blkDev, env
      ensures Valid() && DriversKept() && Owns(pool[..], held) && Keeps(old(pool[..]), pool[..], held)
      ensures |env.steps| <= old(|env.steps|) && (st == Done || (st == Asleep && env.steps == []))
      ensures st == Done && |env.steps| == old(|env.steps|) ==>
        Synced(old(pool[i]).dev, old(pool[i]), pool[i], HasDriver(old(pool[i]).dev)) &&
        forall y :: 0 <= y < pool.Length && y != i ==> pool[y] == old(pool[y])
    {
      var woke := WaitOnBuffer(i, held, multiset{});
      if !woke {
        return Asleep;
      }
      st := Done;
      if pool[i].dirt {
        st := LlRwBlock(WRITE, i);
      }
    }

    /** sys_sync (the inode write-back first is not part of this model): wait
        for every buffer and write the dirty ones. When no other task ran, no
        buffer was locked and each changed as a sync of its own device says. */
    method SysSync(held: multiset<int>) returns (st: Status)
      requires Valid() && Owns(pool[..], held)
      modifies this, pool, hashTable, rq, rq.request, rq.blkDev, env
      ensures Valid() && DriversKept() && Owns(pool[..], held) && Keeps(old(pool[..]), pool[..], held)
      ensures |env.steps| <= old(|env.steps|) && (st == Done || (st == Asleep && env.steps == []))
      ensures st == Done && |env.steps| == old(|env.steps|) ==>
        forall y :: 0 <= y < pool.Length ==> Synced(old(pool[y]).dev, old(pool[y]), pool[y], HasDriver(old(pool[y]).dev))
    {
      var i := 0;
      while i < pool.Length
        invariant 0 <= i <= pool.Length
        invariant Valid() && DriversKept() && Owns(pool[..], held) && Keeps(old(pool[..]), pool[..], held)
        invariant |env.steps| <= old(|env.steps|)
        invariant |env.steps| == old(|env.steps|) ==>
          (forall y :: i <= y < pool.Length ==> pool[y] == old(pool[y])) &&
          (forall y :: 0 <= y < i ==> Synced(old(pool[y]).dev, old(pool[y]), pool[y], HasDriver(old(pool[y]).dev)))
      {
        ghost var here := pool[..];
        st := FlushOne(i, held);
        KeepsTrans(old(pool[..]), here, pool[..], held);
        if st == Asleep {
          return;
        }
        i := i + 1;
      }
      st := Done;
    }

    /** invalidate_buffers' loop body for buffer i: if it is of device d, wait
        for it and, if it is still of d, clear its uptodate and dirt flags. */
    method InvalidateOne(d: int, i: int, held: multiset<int>) returns (st: Status)
      requires Valid() && Owns(pool[..], held) && 0 <= i < pool.Length
      modifies this, pool, hashTable, rq, rq.request, rq.blkDev, env
      ensures Valid() && DriversKept() && Owns(pool[..], held) && Keeps(old(pool[..]), pool[..], held)
      ensures |env.steps| <= old(|env.steps|) && (st == Done || (st == Asleep && env.steps == []))
      ensures st == Done && |env.steps| == old(|env.steps|) ==>
        pool[i] == Invalidated(d, old(pool[i])) && (old(pool[i]).dev == d ==> !old(pool[i]).lock) &&
        forall y :: 0 <= y < pool.Length && y != i ==> pool[y] == old(pool[y])
    {
      st := Done;
      if pool[i].dev == d {
        var woke := WaitOnBuffer(i, held, multiset{});
        if !woke {
          return Asleep;
        }
        if pool[i].dev == d {
          Touch(i, pool[i].(uptodate := false, dirt := false));
        }
      }
    }

    /** invalidate_buffers(d): every buffer of d is waited for and marked not
        up to date and clean. When no other task ran, the pool is exactly the
        old one with Invalidated applied to every buffer. */
    method InvalidateBuffers(d: int, held: multiset<int>) returns (st: Status)
      requires Valid() && Owns(pool[..], held)
      modifies this, pool, hashTable, rq, rq.request, rq.blkDev, env
      ensures Valid() && DriversKept() && Owns(pool[..], held) && Keeps(old(pool[..]), pool[..], held)
      ensures |env.steps| <= old(|env.steps|) && (st == Done || (st == Asleep && env.steps == []))
      ensures st == Done && |env.steps| == old(|env.steps|) ==>
        forall y :: 0 <= y < pool.Length ==> pool[y] == Invalidated(d, old(pool[y]))
    {
      var i := 0;
      while i < pool.Length
        invariant 0 <= i <= pool.Length
        invariant Valid() && DriversKept() && Owns(pool[..], held) && Keeps(old(pool[..]), pool[..], held)
        invariant |env.steps| <= old(|env.steps|)
        invariant |env.steps| == old(|env.steps|) ==>
          (forall y :: i <= y < pool.Length ==> pool[y] == old(pool[y])) &&
          (forall y :: 0 <= y < i ==> pool[y] == Invalidated(d, old(pool[y])))
      {
        ghost var here := pool[..];
        st := InvalidateOne(d, i, held);
        KeepsTrans(old(pool[..]), here, pool[..], held);
        if st == Asleep {
          return;
        }
        i := i + 1;
      }
      st := Done;
    }

    /** b_count++ on buffer b: the task now holds one more reference to it. */
    method Pin(b: int, held: multiset<int>)
      requires Valid() && Owns(pool[..], held) && 0 <= b < pool.Length
      modifies pool
      ensures pool[..] == old(pool[..])[b := old(pool[b]).(count := old(pool[b].count) + 1)] && Valid()
      ensures Owns(pool[..], held + multiset{b}) && Keeps(old(pool[..]), pool[..], held)
    {
      Touch(b, pool[b].(count := pool[b].count + 1));
    }

    /** b_count-- on a buffer b the task holds a reference to. */
    method Unpin(b: int, held: multiset<int>)
      requires Valid() && Owns(pool[..], held + multiset{b}) && 0 <= b < pool.Length
      modifies pool
      ensures pool[..] == old(pool[..])[b := old(pool[b]).(count := old(pool[b].count) - 1)] && Valid()
      ensures Owns(pool[..], held) && Keeps(old(pool[..]), pool[..], held)
    {
      assert (held + multiset{b})[b] == held[b] + 1;
      Touch(b, pool[b].(count := pool[b].count - 1));
      forall y | y in held
        ensures 0 <= y < pool.Length && pool[y].count >= held[y]
      {
        assert y in held + multiset{b};
      }
    }

    /** get_hash_table once find_buffer has found buffer r: take a reference,
        wait for r, and keep it if it still has key (dev, block); otherwise
        drop the reference, which only happens after other tasks ran. */
    method HoldFound(r: int, dev: int, block: int, held: multiset<int>) returns (st: Status, kept: bool)
      requires Valid() && Owns(pool[..], held) && 0 <= r < pool.Length
      requires Hashed(pool[r]) && pool[r].dev == dev && pool[r].blocknr == block
      modifies this, pool, hashTable, rq, rq.request, rq.blkDev, env
      ensures Valid() && DriversKept() && Owns(pool[..], held) && Keeps(old(pool[..]), pool[..], held)
      ensures |env.steps| <= old(|env.steps|) && (st == Done || (st == Asleep && env.steps == []))
      ensures st == Done && !kept ==> |env.steps| < old(|env.steps|)
      ensures st == Done && kept ==>
        Hashed(pool[r]) && pool[r].dev == dev && pool[r].blocknr == block && !pool[r].lock &&
        Owns(pool[..], held + multiset{r})
      ensures st == Done && |env.steps| == old(|env.steps|) ==>
        kept && unchanged(this, hashTable) &&
        pool[..] == old(pool[..])[r := old(pool[r]).(count := old(pool[r].count) + 1)]
    {
      Pin(r, held);
      ghost var counted := pool[..];
      var woke := WaitOnBuffer(r, held, multiset{r});
      KeepsTrans(old(pool[..]), counted, pool[..], held);
      if !woke {
        return Asleep, false;
      }
      st, kept := Done, true;
      if pool[r].dev != dev || pool[r].blocknr != block {
        ghost var waited := pool[..];
        Unpin(r, held);
        KeepsTrans(old(pool[..]), waited, pool[..], held);
        kept := false;
      }
    }

    /** One round of get_hash_table's loop: find_buffer, then HoldFound;
        `again` asks for another round. */
    method HashRound(dev: int, block: int, held: multiset<int>) returns (st: Status, r: int, again: bool)
      requires Valid() && Owns(pool[..], held) && 0 <= dev < 0x1_0000 && 0 <= block < 0x8000_0000
      modifies this, pool, hashTable, rq, rq.request, rq.blkDev, env
      ensures Valid() && DriversKept() && Owns(pool[..], held) && Keeps(old(pool[..]), pool[..], held)
      ensures |env.steps| <= old(|env.steps|) && (st == Done || (st == Asleep && env.steps == []))
      ensures again ==> st == Done && |env.steps| < old(|env.steps|)
      ensures -1 <= r < pool.Length
      ensures st == Done && !again && r == -1 ==> Absent(pool[..], dev, block)
      ensures st == Done && !again && r != -1 ==>
        Hashed(pool[r]) && pool[r].dev == dev && pool[r].blocknr == block && !pool[r].lock &&
        Owns(pool[..], held + multiset{r})
      ensures st == Done && |env.steps| == old(|env.steps|) ==>
        !again && unchanged(this, hashTable) && pool[..] == if r == -1 then old(pool[..]) else old(pool[..])[r := old(pool[r]).(count := old(pool[r].count) + 1)]
    {
      r := FindBuffer(dev, block);
      if r == -1 {
        return Done, -1, false;
      }
      var kept;
      st, kept := HoldFound(r, dev, block, held);
      again := st == Done && !kept;
      if !kept {
        r := -1;
      }
    }

    /** get_hash_table(dev, block): rounds of HashRound until one keeps a
        buffer or finds none. */
    method GetHashTable(dev: int, block: int, held: multiset<int>) returns (st: Status, r: int)
      requires Valid() && Owns(pool[..], held) && 0 <= dev < 0x1_0000 && 0 <= block < 0x8000_0000
      modifies this, pool, hashTable, rq, rq.request, rq.blkDev, env
      ensures Valid() && DriversKept() && Owns(pool[..], held) && Keeps(old(pool[..]), pool[..], held)
      ensures |env.steps| <= old(|env.steps|) && (st == Done || (st == Asleep && env.steps == []))
      ensures -1 <= r < pool.Length
      ensures st == Done && r == -1 ==> Absent(pool[..], dev, block)
      ensures st == Done && r != -1 ==>
        Hashed(pool[r]) && pool[r].dev == dev && pool[r].blocknr == block && !pool[r].lock &&
        Owns(pool[..], held + multiset{r})
      ensures st == Done && |env.steps| == old(|env.steps|) ==>
        unchanged(this, hashTable) && pool[..] == if r == -1 then old(pool[..]) else old(pool[..])[r := old(pool[r]).(count := old(pool[r].count) + 1)]
    {
      while true
        invariant Valid() && DriversKept() && Owns(pool[..], held) && Keeps(old(pool[..]), pool[..], held)
        invariant |env.steps| <= old(|env.steps|)
        invariant |env.steps| == old(|env.steps|) ==> pool[..] == old(pool[..]) && unchanged(this, hashTable)
        decreases |env.steps|
      {
        ghost var here := pool[..];
        var again;
        st, r, again := HashRound(dev, block, held);
        KeepsTrans(old(pool[..]), here, pool[..], held);
        if !again {
          return;
        }
      }
    }
  
    /** getblk's loop over a dirty victim bh: sync its device
        and wait for it again; `again` when another task took a reference
        meanwhile. A pass in which no other task ran changes nothing, so the
        loop would turn for ever (Spins): that happens exactly when the
        victim's device has no driver to write it. */
    method Scrub(bh: int, held: multiset<int>) returns (st: Status, again: bool)
      requires Valid() && Owns(pool[..], held) && 0 <= bh < pool.Length
      requires pool[bh].count == 0 && !pool[bh].lock
      modifies this, pool, hashTable, rq, rq.request, rq.blkDev, env
      ensures Valid() && DriversKept() && Owns(pool[..], held) && Keeps(old(pool[..]), pool[..], held)
      ensures |env.steps| <= old(|env.steps|) && (st == Done || st == Spins || (st == Asleep && env.steps == []))
      ensures again ==> st == Done && |env.steps| < old(|env.steps|)
      ensures st == Done && !again ==> pool[bh].count == 0 && !pool[bh].lock && !pool[bh].dirt
      ensures st == Spins ==> pool[bh].dirt && !HasDriver(pool[bh].dev)
      ensures st == Done && |env.steps| == old(|env.steps|) ==> pool[..] == old(pool[..]) && unchanged(this, hashTable)
    {
      st, again := Done, false;
      while pool[bh].dirt
        invariant Valid() && DriversKept() && Owns(pool[..], held) && Keeps(old(pool[..]), pool[..], held)
        invariant |env.steps| <= old(|env.steps|)
        invariant pool[bh].count == 0 && !pool[bh].lock
        invariant |env.steps| == old(|env.steps|) ==> pool[..] == old(pool[..]) && unchanged(this, hashTable)
        decreases |env.steps|
      {
        var n := |env.steps|;  // the model's stand-in for "did any other task run"
        ghost var here := pool[..];
        ghost var mid, midLeft;
        st, mid, midLeft := SyncDev(pool[bh].dev, held);
        KeepsTrans(old(pool[..]), here, pool[..], held);
        if st == Asleep {
          return;
        }
        ghost var synced := pool[..];
        var woke := WaitOnBuffer(bh, held, multiset{});
        KeepsTrans(old(pool[..]), synced, pool[..], held);
        if !woke {
          return Asleep, false;
        }
        if pool[bh].count != 0 {
          return Done, true;
        }
        if |env.steps| == n {
          return Spins, false;
        }
      }
      st, again := Done, false;
    }

    /** getblk's choice of a victim: scan the free ring (sleeping when every
        buffer is in use), wait for the choice, and clean it. `again` when
        getblk has to start over, which only happens after other tasks ran.
        When none ran, the victim is the least recently used free buffer and
        nothing changed. */
    method Victim(held: multiset<int>) returns (st: Status, bh: int, again: bool)
      requires Valid() && Owns(pool[..], held)
      modifies this, pool, hashTable, rq, rq.request, rq.blkDev, env
      ensures Valid() && DriversKept() && Owns(pool[..], held) && Keeps(old(pool[..]), pool[..], held)
      ensures |env.steps| <= old(|env.steps|) && (st == Done || st == Spins || (st == Asleep && env.steps == []))
      ensures again ==> st == Done && |env.steps| < old(|env.steps|)
      ensures -1 <= bh < pool.Length
      ensures st == Done && !again ==> bh != -1 && pool[bh].count == 0 && !pool[bh].lock && !pool[bh].dirt
      ensures st == Spins ==> bh != -1 && pool[bh].dirt && !HasDriver(pool[bh].dev)
      ensures st == Done && |env.steps| == old(|env.steps|) ==>
        !again && FirstFree(old(State()), bh) && pool[..] == old(pool[..]) && unchanged(this, hashTable)
    {
      bh := SelectVictim();
      if bh == -1 {
        var woke := Sleep(held, multiset{});
        if !woke {
          return Asleep, -1, false;
        }
        return Done, -1, true;
      }
      ghost var scanned := State();
      if Badness(pool[bh]) == 0 {
        FirstFreeWhenClean(scanned, bh);
      }
      st, again := Ready(bh, held);
      if st == Asleep || again {
        bh := -1;
      }
    }

    /** getblk on its victim bh: wait_on_buffer, start over if another task
        took a reference meanwhile, then the loop that cleans it. */
    method Ready(bh: int, held: multiset<int>) returns (st: Status, again: bool)
      requires Valid() && Owns(pool[..], held) && 0 <= bh < pool.Length && pool[bh].count == 0
      modifies this, pool, hashTable, rq, rq.request, rq.blkDev, env
      ensures Valid() && DriversKept() && Owns(pool[..], held) && Keeps(old(pool[..]), pool[..], held)
      ensures |env.steps| <= old(|env.steps|) && (st == Done || st == Spins || (st == Asleep && env.steps == []))
      ensures again ==> st == Done && |env.steps| < old(|env.steps|)
      ensures st == Done && !again ==> pool[bh].count == 0 && !pool[bh].lock && !pool[bh].dirt
      ensures st == Spins ==> pool[bh].dirt && !HasDriver(pool[bh].dev)
      ensures st == Done && |env.steps| == old(|env.steps|) ==>
        !again && pool[..] == old(pool[..]) && unchanged(this, hashTable)
    {
      var woke := WaitOnBuffer(bh, held, multiset{});
      if !woke {
        return Asleep, false;
      }
      if pool[bh].count != 0 {
        return Done, true;
      }
      ghost var waited := pool[..];
      st, again := Scrub(bh, held);
      KeepsTrans(old(pool[..]), waited, pool[..], held);
    }

    /** The end of getblk for victim bh: find_buffer once more, and the
        claim (Claim) when the key is still absent. */
    method Take(bh: int, dev: int, block: int, held: multiset<int>) returns (taken: bool)
      requires Valid() && Owns(pool[..], held) && 0 <= bh < pool.Length && pool[bh].count == 0
      requires 0 <= dev < 0x1_0000 && 0 <= block < 0x8000_0000
      modifies this, pool, hashTable
      ensures Valid() && Owns(pool[..], held) && Keeps(old(pool[..]), pool[..], held)
      ensures taken <==> old(Absent(pool[..], dev, block))
      ensures !taken ==> pool[..] == old(pool[..]) && unchanged(this, hashTable)
      ensures taken ==>
        Owns(pool[..], held + multiset{bh}) &&
        (!old(pool[bh].lock) ==> Fresh(pool[bh], dev, block)) &&
        ClaimReady(old(State()), bh, dev, block) && State() == Claimed(old(State()), bh, dev, block)
    {
      var found := FindBuffer(dev, block);
      if found != -1 {
        return false;
      }
      ghost var p := State();
      ClaimOwns(p, bh, dev, block, held);
      Claim(bh, dev, block);
      return true;
    }

    /** The part of getblk after get_hash_table found no buffer of key
        (dev, block): choose a victim, check again that the key is still
        absent, and claim the victim. `again` when getblk has to start over,
        which only happens after other tasks ran. When none ran, the buffer
        claimed is the least recently used free one. */
    method ClaimRound(dev: int, block: int, held: multiset<int>) returns (st: Status, r: int, again: bool)
      requires Valid() && Owns(pool[..], held) && 0 <= dev < 0x1_0000 && 0 <= block < 0x8000_0000
      requires Absent(pool[..], dev, block)
      modifies this, pool, hashTable, rq, rq.request, rq.blkDev, env
      ensures Valid() && DriversKept() && Owns(pool[..], held) && Keeps(old(pool[..]), pool[..], held)
      ensures |env.steps| <= old(|env.steps|) && (st == Done || st == Spins || (st == Asleep && env.steps == []))
      ensures again ==> st == Done && |env.steps| < old(|env.steps|)
      ensures -1 <= r < pool.Length
      ensures st == Done && !again ==> r != -1 && Fresh(pool[r], dev, block) && Owns(pool[..], held + multiset{r})
      ensures st == Spins ==> r != -1 && pool[r].dirt && !HasDriver(pool[r].dev)
      ensures st == Done && |env.steps| == old(|env.steps|) ==>
        !again && GetblkQuiet(old(State()), State(), r, dev, block)
    {
      ghost var start := State();
      st, r, again := Victim(held);
      if st != Done || again {
        return;
      }
      ghost var chosen := State();
      if |env.steps| == old(|env.steps|) {
        assert chosen == start && Absent(pool[..], dev, block);
      }
      var taken := Take(r, dev, block, held);
      KeepsTrans(old(pool[..]), chosen.bufs, pool[..], held);
      if !taken {
        r, again := -1, true;
      }
    }

    /** One round of getblk: get_hash_table, and when the key is not cached
        ClaimRound; `again` asks for another round. */
    method GetblkRound(dev: int, block: int, held: multiset<int>) returns (st: Status, r: int, again: bool)
      requires Valid() && Owns(pool[..], held) && 0 <= dev < 0x1_0000 && 0 <= block < 0x8000_0000
      modifies this, pool, hashTable, rq, rq.request, rq.blkDev, env
      ensures Valid() && DriversKept() && Owns(pool[..], held) && Keeps(old(pool[..]), pool[..], held)
      ensures |env.steps| <= old(|env.steps|) && (st == Done || st == Spins || (st == Asleep && env.steps == []))
      ensures again ==> st == Done && |env.steps| < old(|env.steps|)
      ensures -1 <= r < pool.Length
      ensures st == Done && !again ==>
        r != -1 && pool[r].dev == dev && pool[r].blocknr == block && !pool[r].lock && Owns(pool[..], held + multiset{r})
      ensures st == Spins ==> r != -1 && pool[r].dirt && !HasDriver(pool[r].dev)
      ensures st == Done && |env.steps| == old(|env.steps|) ==>
        !again && GetblkQuiet(old(State()), State(), r, dev, block) &&
        (!Absent(old(State()).bufs, dev, block) ==> unchanged(this, hashTable))
    {
      st, r := GetHashTable(dev, block, held);
      again := false;
      if st == Asleep {
        return;
      }
      if |env.steps| == old(|env.steps|) {
        HeadsOnly();
      }
      if r != -1 {
        if |env.steps| == old(|env.steps|) {
          HitQuiet(old(State()), State(), r, dev, block);
        }
        return;
      }
      ghost var looked := State();
      st, r, again := ClaimRound(dev, block, held);
      KeepsTrans(old(pool[..]), looked.bufs, pool[..], held);
    }

    /** getblk(dev, block): the buffer of that key, with one more reference,
        taken from the cache when it is there and otherwise claimed from the
        free ring for that key. No other buffer has the key (the pool
        invariant). getblk never returns NULL; the model's other outcomes are
        sleeping for good and the endless loop on a dirty victim whose device
        has no driver. When no other task ran, a cached buffer only gained a
        reference, and otherwise the buffer claimed is the least recently
        used free one, now fresh. */
    method Getblk(dev: int, block: int, held: multiset<int>) returns (st: Status, r: int)
      requires Valid() && Owns(pool[..], held) && 0 <= dev < 0x1_0000 && 0 <= block < 0x8000_0000
      modifies this, pool, hashTable, rq, rq.request, rq.blkDev, env
      ensures Valid() && DriversKept() && Owns(pool[..], held) && Keeps(old(pool[..]), pool[..], held)
      ensures |env.steps| <= old(|env.steps|) && (st == Done || st == Spins || (st == Asleep && env.steps == []))
      ensures -1 <= r < pool.Length
      ensures st == Done ==>
        r != -1 && pool[r].dev == dev && pool[r].blocknr == block && !pool[r].lock && Owns(pool[..], held + multiset{r})
      ensures st == Spins ==> r != -1 && pool[r].dirt && !HasDriver(pool[r].dev)
      ensures st == Done && |env.steps| == old(|env.steps|) ==>
        GetblkQuiet(old(State()), State(), r, dev, block) &&
        (!Absent(old(State()).bufs, dev, block) ==> unchanged(this, hashTable))
    {
      ghost var start := State();
      while true
        invariant Valid() && DriversKept() && Owns(pool[..], held) && Keeps(old(pool[..]), pool[..], held)
        invariant |env.steps| <= old(|env.steps|) && start == old(State())
        invariant |env.steps| == old(|env.steps|) ==> State() == start && unchanged(this, hashTable)
        decreases |env.steps|
      {
        ghost var here := State();
        var again;
        st, r, again := GetblkRound(dev, block, held);
        KeepsTrans(old(pool[..]), here.bufs, pool[..], held);
        if !again {
          return;
        }
      }
    }

    /** getblk as its callers in this file use it: the buffer returned has
        the key asked for, is unlocked and is held. */
    method GetblkHeld(dev: int, block: int, held: multiset<int>) returns (st: Status, r: int)
      requires Valid() && Owns(pool[..], held) && 0 <= dev < 0x1_0000 && 0 <= block < 0x8000_0000
      modifies this, pool, hashTable, rq, rq.request, rq.blkDev, env
      ensures Valid() && DriversKept() && Owns(pool[..], held) && Keeps(old(pool[..]), pool[..], held)
      ensures |env.steps| <= old(|env.steps|) && (st == Done || st == Spins || (st == Asleep && env.steps == []))
      ensures st == Done ==>
        0 <= r < pool.Length && pool[r].dev == dev && pool[r].blocknr == block && !pool[r].lock &&
        Owns(pool[..], held + multiset{r})
    {
      st, r := Getblk(dev, block, held);
    }

    /** brelse(b): nothing for NULL; otherwise wait for b and drop one
        reference, panicking when there is none to drop (the source
        decrements first and then tests the old value). A reference the task
        holds is always there, so releasing it never panics. */
    method Brelse(b: int, held: multiset<int>) returns (st: Status)
      requires Valid() && Owns(pool[..], held) && -1 <= b < pool.Length
      modifies this, pool, hashTable, rq, rq.request, rq.blkDev, env
      ensures Valid() && DriversKept() && Keeps(old(pool[..]), pool[..], held - multiset{b})
      ensures |env.steps| <= old(|env.steps|) && (st == Done || st.Panic? || (st == Asleep && env.steps == []))
      ensures b == -1 ==> st == Done && pool[..] == old(pool[..]) && env.steps == old(env.steps)
      ensures Owns(pool[..], held - multiset{b})
      ensures st.Panic? ==> st == Panic("Trying to free free buffer") && b !in held && pool[b].count == 0
      ensures b != -1 && st == Done && |env.steps| == old(|env.steps|) ==>
        old(pool[b].count) > 0 && pool[..] == old(pool[..])[b := old(pool[b]).(count := old(pool[b].count) - 1)]
      ensures b != -1 && !old(pool[b].lock) ==> (st == Done || st.Panic?) && env.steps == old(env.steps)
    {
      if b == -1 {
        OwnsLess(pool[..], held, b);
        return Done;
      }
      var woke := WaitOnBuffer(b, held, multiset{});
      if !woke {
        OwnsLess(pool[..], held, b);
        return Asleep;
      }
      ghost var waited := pool[..];
      st := Decrement(b, held);
      KeepsTrans(old(pool[..]), waited, pool[..], held - multiset{b});
    }

    /** The `b_count--` of brelse with its test of the old value. */
    method Decrement(b: int, held: multiset<int>) returns (st: Status)
      requires Valid() && Owns(pool[..], held) && 0 <= b < pool.Length
      modifies pool
      ensures Valid() && Keeps(old(pool[..]), pool[..], held - multiset{b})
      ensures st == Done || st == Panic("Trying to free free buffer")
      ensures st.Panic? <==> old(pool[b].count) == 0
      ensures st.Panic? ==> b !in held && pool[..] == old(pool[..])
      ensures Owns(pool[..], held - multiset{b})
      ensures st == Done ==>
        old(pool[b].count) > 0 && pool[..] == old(pool[..])[b := old(pool[b]).(count := old(pool[b].count) - 1)]
    {
      if pool[b].count == 0 {
        OwnsLess(pool[..], held, b);
        return Panic("Trying to free free buffer");
      }
      var rest := held - multiset{b};
      if b in held {
        assert rest + multiset{b} == held;
      } else {
        assert rest == held;
      }
      Unpin(b, rest);
      st := Done;
    }

    /** The end of bread and breada on the buffer r the task holds: wait for
        it, keep it when it is up to date, and otherwise release it
        (`kept` false). */
    method Settle(r: int, held: multiset<int>) returns (st: Status, kept: bool)
      requires Valid() && Owns(pool[..], held + multiset{r}) && 0 <= r < pool.Length
      modifies this, pool, hashTable, rq, rq.request, rq.blkDev, env
      ensures Valid() && DriversKept() && Owns(pool[..], held) && Keeps(old(pool[..]), pool[..], held)
      ensures |env.steps| <= old(|env.steps|) && (st == Done || (st == Asleep && env.steps == []))
      ensures st == Done && kept ==>
        pool[r].dev == old(pool[r].dev) && pool[r].blocknr == old(pool[r].blocknr) &&
        pool[r].uptodate && !pool[r].lock && Owns(pool[..], held + multiset{r})
      ensures st == Done && !kept ==>
        pool[r].dev == old(pool[r].dev) && pool[r].blocknr == old(pool[r].blocknr) && !pool[r].uptodate && !pool[r].lock
      ensures st == Done && |env.steps| == old(|env.steps|) ==> (kept <==> old(pool[r].uptodate))
    {
      assert held + multiset{r} + multiset{} == held + multiset{r};
      var woke := WaitOnBuffer(r, held + multiset{r}, multiset{});
      kept := true;
      if !woke || pool[r].uptodate {
        st := if woke then Done else Asleep;
        HoldLess(old(pool[..]), pool[..], held, multiset{r});
        return;
      }
      ghost var waited := pool[..];
      st := Brelse(r, held + multiset{r});
      assert held + multiset{r} - multiset{r} == held;
      KeepsTrans(old(pool[..]), waited, pool[..], held);
      kept := false;
    }

    /** bread once getblk returned r: nothing to do when r is up to date;
        otherwise READ and Settle. */
    method ReadOrRelease(r: int, held: multiset<int>) returns (st: Status, kept: bool)
      requires Valid() && Owns(pool[..], held + multiset{r}) && 0 <= r < pool.Length && !pool[r].lock
      modifies this, pool, hashTable, rq, rq.request, rq.blkDev, env
      ensures Valid() && DriversKept() && Owns(pool[..], held) && Keeps(old(pool[..]), pool[..], held)
      ensures |env.steps| <= old(|env.steps|) && (st == Done || (st == Asleep && env.steps == []))
      ensures st == Done && kept ==>
        pool[r].dev == old(pool[r].dev) && pool[r].blocknr == old(pool[r].blocknr) &&
        pool[r].uptodate && !pool[r].lock && Owns(pool[..], held + multiset{r})
      ensures st == Done && !kept ==>
        pool[r].dev == old(pool[r].dev) && pool[r].blocknr == old(pool[r].blocknr) && !pool[r].uptodate && !pool[r].lock
      ensures old(pool[r].uptodate) ==> st == Done && kept && pool[..] == old(pool[..]) && env.steps == old(env.steps)
    {
      st, kept := Done, true;
      if pool[r].uptodate {
        HoldLess(pool[..], pool[..], held, multiset{r});
        return;
      }
      st := LlRwBlock(READ, r);
      assert Keeps(old(pool[..]), pool[..], held + multiset{r});
      if st == Asleep {
        HoldLess(old(pool[..]), pool[..], held, multiset{r});
        return;
      }
      ghost var read := pool[..];
      st, kept := Settle(r, held);
      KeepsTrans(old(pool[..]), read, pool[..], held);
    }

    /** bread(dev, block): getblk, then read the block unless it is up to
        date. The buffer is returned only when it is up to date; otherwise it
        is released and the result is NULL (-1). The panic for a NULL from
        getblk cannot happen. */
    method Bread(dev: int, block: int, held: multiset<int>) returns (st: Status, r: int)
      requires Valid() && Owns(pool[..], held) && 0 <= dev < 0x1_0000 && 0 <= block < 0x8000_0000
      modifies this, pool, hashTable, rq, rq.request, rq.blkDev, env
      ensures Valid() && DriversKept() && Owns(pool[..], held) && Keeps(old(pool[..]), pool[..], held)
      ensures |env.steps| <= old(|env.steps|) && (st == Done || st == Spins || (st == Asleep && env.steps == []))
      ensures -1 <= r < pool.Length
      ensures st == Done && r != -1 ==>
        pool[r].dev == dev && pool[r].blocknr == block && pool[r].uptodate && !pool[r].lock &&
        Owns(pool[..], held + multiset{r})
      ensures st == Done && r == -1 ==> Released(pool[..], dev, block)
      ensures st == Done && |env.steps| == old(|env.steps|) && CachedUptodate(old(pool[..]), dev, block) ==> r != -1
    {
      ghost var before := old(State());
      st, r := Getblk(dev, block, held);
      if st != Done {
        return st, -1;
      }
      ghost var got := pool[..];
      ghost var gotState := State();
      ghost var b := r;
      var kept;
      st, kept := ReadOrRelease(r, held);
      KeepsTrans(old(pool[..]), got, pool[..], held);
      if !kept {
        r := -1;
      }
      if st == Done && |env.steps| == old(|env.steps|) && CachedUptodate(old(pool[..]), dev, block) {
        CachedHit(before, gotState, b, dev, block);
      }
    }

    /** The READA of breada's read-ahead for tmp. As written it goes to the
        first buffer bh and not to tmp, so tmp itself is never read ahead,
        and while bh is still locked the READA does nothing at all. */
    method AskAhead(bh: int, tmp: int) returns (st: Status)
      requires Valid() && 0 <= bh < pool.Length && 0 <= tmp < pool.Length
      modifies pool, rq, rq.request, rq.blkDev, env
      ensures Valid() && DriversKept()
      ensures forall y :: 0 <= y < pool.Length ==> FlagsOnly(pool[y], old(pool[y]))
      ensures |env.steps| <= old(|env.steps|) && (st == Done || (st == Asleep && env.steps == []))
      ensures old(pool[bh].lock) || old(pool[tmp].uptodate) ==>
        st == Done && env.steps == old(env.steps) && pool[..] == old(pool[..])
    {
      st := Done;
      if !pool[tmp].uptodate {
        st := LlRwBlock(READA, bh);
      }
    }

    /** One step of breada's read-ahead once getblk returned tmp: AskAhead,
        then drop the reference to tmp with a bare b_count--. `held`
        includes bh. */
    method ReadAhead(bh: int, tmp: int, held: multiset<int>) returns (st: Status)
      requires Valid() && 0 <= bh < pool.Length && 0 <= tmp < pool.Length
      requires Owns(pool[..], held + multiset{tmp})
      modifies pool, rq, rq.request, rq.blkDev, env
      ensures Valid() && DriversKept() && Owns(pool[..], held)
      ensures Keeps(old(pool[..]), pool[..], held)
      ensures |env.steps| <= old(|env.steps|) && (st == Done || (st == Asleep && env.steps == []))
      ensures old(pool[bh].lock) || old(pool[tmp].uptodate) ==> st == Done && env.steps == old(env.steps)
    {
      st := AskAhead(bh, tmp);
      assert Owns(pool[..], held + multiset{tmp}) && Keeps(old(pool[..]), pool[..], held + multiset{tmp});
      if st == Asleep {
        HoldLess(old(pool[..]), pool[..], held, multiset{tmp});
        return;
      }
      ghost var asked := pool[..];
      Unpin(tmp, held);
      KeepsTrans(old(pool[..]), asked, pool[..], held);
    }

    /** breada's loop over the further block numbers, up to the first
        negative one: getblk each and ReadAhead it, holding bh throughout
        (`held` includes bh). */
    method ReadAheadAll(bh: int, dev: int, rest: seq<int>, held: multiset<int>) returns (st: Status)
      requires Valid() && Owns(pool[..], held) && 0 <= bh < pool.Length && 0 <= dev < 0x1_0000
      requires forall i :: 0 <= i < |rest| ==> rest[i] < 0x8000_0000
      requires exists i :: 0 <= i < |rest| && rest[i] < 0
      modifies this, pool, hashTable, rq, rq.request, rq.blkDev, env
      ensures Valid() && DriversKept() && Owns(pool[..], held) && Keeps(old(pool[..]), pool[..], held)
      ensures |env.steps| <= old(|env.steps|) && (st == Done || st == Spins || (st == Asleep && env.steps == []))
    {
      var i := 0;
      st := Done;
      while rest[i] >= 0
        invariant 0 <= i < |rest| && exists j :: i <= j < |rest| && rest[j] < 0
        invariant Valid() && DriversKept() && Owns(pool[..], held) && Keeps(old(pool[..]), pool[..], held)
        invariant |env.steps| <= old(|env.steps|) && st == Done
        decreases |rest| - i
      {
        ghost var here := pool[..];
        st := ReadAheadBlock(bh, dev, rest[i], held);
        KeepsTrans(old(pool[..]), here, pool[..], held);
        if st != Done {
          return;
        }
        i := i + 1;
      }
    }

    /** One turn of breada's loop: getblk the block, then ReadAhead. */
    method ReadAheadBlock(bh: int, dev: int, block: int, held: multiset<int>) returns (st: Status)
      requires Valid() && Owns(pool[..], held) && 0 <= bh < pool.Length && 0 <= dev < 0x1_0000 && 0 <= block < 0x8000_0000
      modifies this, pool, hashTable, rq, rq.request, rq.blkDev, env
      ensures Valid() && DriversKept() && Owns(pool[..], held) && Keeps(old(pool[..]), pool[..], held)
      ensures |env.steps| <= old(|env.steps|) && (st == Done || st == Spins || (st == Asleep && env.steps == []))
    {
      var tmp;
      st, tmp := GetblkHeld(dev, block, held);
      if st != Done {
        return;
      }
      ghost var got := pool[..];
      st := ReadAhead(bh, tmp, held);
      KeepsTrans(old(pool[..]), got, pool[..], held);
    }

    /** breada's READ of its first buffer r, issued before the read-ahead
        unless r is up to date; `held` includes r. */
    method StartRead(r: int, held: multiset<int>) returns (st: Status)
      requires Valid() && Owns(pool[..], held) && 0 <= r < pool.Length
      modifies pool, rq, rq.request, rq.blkDev, env
      ensures Valid() && DriversKept() && Owns(pool[..], held) && Keeps(old(pool[..]), pool[..], held)
      ensures |env.steps| <= old(|env.steps|) && (st == Done || (st == Asleep && env.steps == []))
      ensures old(pool[r].uptodate) ==> st == Done && pool[..] == old(pool[..]) && env.steps == old(env.steps)
      ensures HasDriver(old(pool[r].dev)) && !old(pool[r].lock) && !old(pool[r].uptodate) ==>
        st == Asleep || (pool[r].lock && !pool[r].dirt)
    {
      st := Done;
      if !pool[r].uptodate {
        st := LlRwBlock(READ, r);
      }
    }

    /** breada(dev, first, rest...): like bread for block `first`, with a
        read-ahead of each further block up to the first negative entry of
        `rest`, the end mark the caller must supply. The READ of the first
        block is issued before the read-ahead and waited for after it. */
    method Breada(dev: int, first: int, rest: seq<int>, held: multiset<int>) returns (st: Status, r: int)
      requires Valid() && Owns(pool[..], held) && 0 <= dev < 0x1_0000 && 0 <= first < 0x8000_0000
      requires forall i :: 0 <= i < |rest| ==> rest[i] < 0x8000_0000
      requires exists i :: 0 <= i < |rest| && rest[i] < 0
      modifies this, pool, hashTable, rq, rq.request, rq.blkDev, env
      ensures Valid() && DriversKept() && Owns(pool[..], held) && Keeps(old(pool[..]), pool[..], held)
      ensures |env.steps| <= old(|env.steps|) && (st == Done || st == Spins || (st == Asleep && env.steps == []))
      ensures -1 <= r < pool.Length
      ensures st == Done && r != -1 ==>
        pool[r].dev == dev && pool[r].blocknr == first && pool[r].uptodate && !pool[r].lock &&
        Owns(pool[..], held + multiset{r})
      ensures st == Done && r == -1 ==> Released(pool[..], dev, first)
    {
      st, r := GetblkHeld(dev, first, held);
      if st != Done {
        return st, -1;
      }
      ghost var got := pool[..];
      st := StartRead(r, held + multiset{r});
      if st == Done {
        ghost var asked := pool[..];
        st := ReadAheadAll(r, dev, rest, held + multiset{r});
        KeepsTrans(got, asked, pool[..], held + multiset{r});
      }
      if st != Done {
        HoldLess(got, pool[..], held, multiset{r});
        KeepsTrans(old(pool[..]), got, pool[..], held);
        return st, -1;
      }
      ghost var ahead := pool[..];
      var kept;
      st, kept := Settle(r, held);
      KeepsTrans(got, ahead, pool[..], held);
      KeepsTrans(old(pool[..]), got, pool[..], held);
      if !kept {
        assert st == Done ==> pool[r].dev == dev && pool[r].blocknr == first;
        r := -1;
      }
    }

    /** The first loop of bread_page: getblk each nonzero block number of
        `blocks` and start its READ unless it is up to date; a zero block
        number gives no buffer (-1). The buffers got stay held, in `bh`. */
    method PageGet(dev: int, blocks: seq<int>, held: multiset<int>) returns (st: Status, bh: seq<int>)
      requires Valid() && Owns(pool[..], held) && 0 <= dev < 0x1_0000
      requires |blocks| == 4 && forall k :: 0 <= k < 4 ==> 0 <= blocks[k] < 0x8000_0000
      modifies this, pool, hashTable, rq, rq.request, rq.blkDev, env
      ensures Valid() && DriversKept() && Owns(pool[..], held) && Keeps(old(pool[..]), pool[..], held)
      ensures |env.steps| <= old(|env.steps|) && (st == Done || st == Spins || (st == Asleep && env.steps == []))
      ensures st == Done ==> |bh| == 4 && Owns(pool[..], held + Refs(bh)) && Got(pool[..], dev, blocks, bh)
    {
      st, bh := Done, [];
      while |bh| < 4
        invariant |bh| <= 4 && st == Done
        invariant Valid() && DriversKept() && Owns(pool[..], held + Refs(bh)) && Keeps(old(pool[..]), pool[..], held)
        invariant |env.steps| <= old(|env.steps|) && Got(pool[..], dev, blocks, bh)
        decreases 4 - |bh|
      {
        ghost var here := pool[..];
        st, bh := PageGetStep(dev, blocks, bh, held);
        KeepsTrans(old(pool[..]), here, pool[..], held);
        if st != Done {
          return;
        }
      }
    }

    /** One turn of bread_page's first loop, for block number blocks[|bh|]:
        no buffer for 0, otherwise getblk it and start its READ. */
    method PageGetStep(dev: int, blocks: seq<int>, bh: seq<int>, held: multiset<int>) returns (st: Status, bh': seq<int>)
      requires Valid() && Owns(pool[..], held + Refs(bh)) && 0 <= dev < 0x1_0000
      requires |blocks| == 4 && forall k :: 0 <= k < 4 ==> 0 <= blocks[k] < 0x8000_0000
      requires |bh| < 4 && Got(pool[..], dev, blocks, bh)
      modifies this, pool, hashTable, rq, rq.request, rq.blkDev, env
      ensures Valid() && DriversKept() && Owns(pool[..], held) && Keeps(old(pool[..]), pool[..], held)
      ensures |env.steps| <= old(|env.steps|) && (st == Done || st == Spins || (st == Asleep && env.steps == []))
      ensures st == Done ==> |bh'| == |bh| + 1 && Owns(pool[..], held + Refs(bh')) && Got(pool[..], dev, blocks, bh')
    {
      var i := |bh|;
      if blocks[i] == 0 {
        st, bh' := Done, bh + [-1];
        GotStep(pool[..], pool[..], held, dev, blocks, bh, -1);
        HoldLess(pool[..], pool[..], held, Refs(bh));
        return;
      }
      var r;
      st, r := PageGetOne(dev, blocks[i], held + Refs(bh));
      HoldLess(old(pool[..]), pool[..], held, Refs(bh));
      bh' := bh + [r];
      if st == Done {
        GotStep(old(pool[..]), pool[..], held, dev, blocks, bh, r);
      }
    }

    /** One getblk of bread_page's first loop, with the READ started. */
    method PageGetOne(dev: int, block: int, held: multiset<int>) returns (st: Status, r: int)
      requires Valid() && Owns(pool[..], held) && 0 <= dev < 0x1_0000 && 0 <= block < 0x8000_0000
      modifies this, pool, hashTable, rq, rq.request, rq.blkDev, env
      ensures Valid() && DriversKept() && Owns(pool[..], held) && Keeps(old(pool[..]), pool[..], held)
      ensures |env.steps| <= old(|env.steps|) && (st == Done || st == Spins || (st == Asleep && env.steps == []))
      ensures st == Done ==>
        0 <= r < pool.Length && pool[r].dev == dev && pool[r].blocknr == block && Owns(pool[..], held + multiset{r})
    {
      st, r := GetblkHeld(dev, block, held);
      if st != Done {
        return;
      }
      ghost var got := pool[..];
      st := StartRead(r, held + multiset{r});
      HoldLess(got, pool[..], held, multiset{r});
      KeepsTrans(old(pool[..]), got, pool[..], held);
    }

    /** The second loop of bread_page on the buffer r of block k: wait for
        it, copy it to the k-th kilobyte of the page if it is up to date,
        and release it. `from` is the buffer as it was copied. */
    method PageCopyOne(page: array<Byte>, k: int, r: int, held: multiset<int>)
      returns (st: Status, ghost copied: bool, ghost from: BufferHead)
      requires Valid() && Owns(pool[..], held + multiset{r}) && 0 <= r < pool.Length
      requires page.Length == 4 * BLOCK_SIZE && 0 <= k < 4
      modifies this, pool, hashTable, rq, rq.request, rq.blkDev, env, page
      ensures Valid() && DriversKept() && Owns(pool[..], held) && Keeps(old(pool[..]), pool[..], held)
      ensures |env.steps| <= old(|env.steps|) && (st == Done || (st == Asleep && env.steps == []))
      ensures copied ==>
        from.dev == old(pool[r].dev) && from.blocknr == old(pool[r].blocknr) && from.uptodate && |from.data| == BLOCK_SIZE
      ensures st == Done ==> from.dev == old(pool[r].dev) && from.blocknr == old(pool[r].blocknr) && (copied <==> from.uptodate)
      ensures forall j :: 0 <= j < page.Length ==>
        page[j] == if copied && k * BLOCK_SIZE <= j < (k + 1) * BLOCK_SIZE then from.data[j - k * BLOCK_SIZE] else old(page[j])
    {
      copied, from := false, pool[r];
      assert held + multiset{r} + multiset{} == held + multiset{r};
      var woke := WaitOnBuffer(r, held + multiset{r}, multiset{});
      if !woke {
        HoldLess(old(pool[..]), pool[..], held, multiset{r});
        return Asleep, copied, from;
      }
      from := pool[r];
      if pool[r].uptodate {
        copied, from := true, pool[r];
        assert |from.data| == BLOCK_SIZE;
        forall j | 0 <= j < BLOCK_SIZE {
          page[k * BLOCK_SIZE + j] := pool[r].data[j];
        }
      }
      ghost var waited := pool[..];
      st := Brelse(r, held + multiset{r});
      assert held + multiset{r} - multiset{r} == held;
      KeepsTrans(old(pool[..]), waited, pool[..], held);
    }

    /** One turn of bread_page's second loop, for buffer bh[i]: nothing for
        NULL, otherwise PageCopyOne. The buffers bh[i..] are held. */
    method PageCopyStep(page: array<Byte>, dev: int, blocks: seq<int>, bh: seq<int>, i: int, held: multiset<int>,
                        ghost orig: seq<Byte>, ghost copied: seq<bool>, ghost from: seq<BufferHead>)
      returns (st: Status, ghost copied': seq<bool>, ghost from': seq<BufferHead>)
      requires Valid() && page.Length == 4 * BLOCK_SIZE && |blocks| == 4 && |bh| == 4 && 0 <= i < 4
      requires Owns(pool[..], held + Refs(bh[i..]))
      requires bh[i] == -1 <==> blocks[i] == 0
      requires bh[i] != -1 ==> 0 <= bh[i] < pool.Length && pool[bh[i]].dev == dev && pool[bh[i]].blocknr == blocks[i]
      requires PageDone(page[..], orig, dev, blocks, copied, from, i)
      modifies this, pool, hashTable, rq, rq.request, rq.blkDev, env, page
      ensures Valid() && DriversKept() && Owns(pool[..], held + Refs(bh[i + 1..]))
      ensures Keeps(old(pool[..]), pool[..], held + Refs(bh[i + 1..]))
      ensures |env.steps| <= old(|env.steps|) && (st == Done || (st == Asleep && env.steps == []))
      ensures PageFrom(page[..], orig, copied', from') && CopiedFrom(dev, blocks, copied', from')
      ensures st == Done ==> PageDone(page[..], orig, dev, blocks, copied', from', i + 1)
    {
      st, copied', from' := Done, copied, from;
      var rest := held + Refs(bh[i + 1..]);
      RefsFront(bh, i);
      if bh[i] == -1 {
        assert held + Refs(bh[i..]) == rest;
        return;
      }
      assert held + Refs(bh[i..]) == rest + multiset{bh[i]};
      ghost var before := page[..];
      ghost var c, f;
      st, c, f := PageCopyOne(page, i, bh[i], rest);
      PageFromStep(page[..], before, orig, copied, from, i, c, f);
      if c {
        copied', from' := copied[i := true], from[i := f];
      } else if st == Done {
        PageFromUncopied(page[..], orig, copied, from, i, f);
        from' := from[i := f];
      }
    }

    /** PageCopyStep for bh[i] when the buffers bh were got in the pool
        `start` at the beginning of the loop: what the loop keeps of `start`
        after the turn, and the references left when the task sleeps for good. */
    method PageCopyNext(page: array<Byte>, dev: int, blocks: seq<int>, bh: seq<int>, i: int, held: multiset<int>,
                        ghost start: seq<BufferHead>, ghost orig: seq<Byte>, ghost copied: seq<bool>, ghost from: seq<BufferHead>)
      returns (st: Status, ghost copied': seq<bool>, ghost from': seq<BufferHead>)
      requires Valid() && page.Length == 4 * BLOCK_SIZE && |blocks| == 4 && |bh| == 4 && 0 <= i < 4
      requires Owns(pool[..], held + Refs(bh[i..]))
      requires Got(start, dev, blocks, bh) && Keeps(start, pool[..], held + Refs(bh[i..]))
      requires PageDone(page[..], orig, dev, blocks, copied, from, i)
      modifies this, pool, hashTable, rq, rq.request, rq.blkDev, env, page
      ensures Valid() && DriversKept() && Owns(pool[..], held + Refs(bh[i + 1..]))
      ensures Keeps(start, pool[..], held + Refs(bh[i + 1..]))
      ensures |env.steps| <= old(|env.steps|) && (st == Done || (st == Asleep && env.steps == []))
      ensures st == Asleep ==> Owns(pool[..], held) && Keeps(start, pool[..], held)
      ensures PageFrom(page[..], orig, copied', from') && CopiedFrom(dev, blocks, copied', from')
      ensures st == Done ==> PageDone(page[..], orig, dev, blocks, copied', from', i + 1)
    {
      GotAt(start, pool[..], held, dev, blocks, bh, i);
      ghost var here := pool[..];
      st, copied', from' := PageCopyStep(page, dev, blocks, bh, i, held, orig, copied, from);
      KeepsTrans(start, here, pool[..], held + Refs(bh[i + 1..]));
      if st == Asleep {
        HoldLess(start, pool[..], held, Refs(bh[i + 1..]));
      }
    }

    /** The second loop of bread_page over the buffers `bh` the first loop
        got: PageCopyStep for each, in order. */
    method PageCopy(page: array<Byte>, dev: int, blocks: seq<int>, bh: seq<int>, held: multiset<int>)
      returns (st: Status, ghost copied: seq<bool>, ghost from: seq<BufferHead>)
      requires Valid() && page.Length == 4 * BLOCK_SIZE && |blocks| == 4 && |bh| == 4
      requires Owns(pool[..], held + Refs(bh)) && Got(pool[..], dev, blocks, bh)
      modifies this, pool, hashTable, rq, rq.request, rq.blkDev, env, page
      ensures Valid() && DriversKept() && Owns(pool[..], held) && Keeps(old(pool[..]), pool[..], held)
      ensures |env.steps| <= old(|env.steps|) && (st == Done || (st == Asleep && env.steps == []))
      ensures PageFrom(page[..], old(page[..]), copied, from) && CopiedFrom(dev, blocks, copied, from)
      ensures |copied| == 4 && |from| == 4 && (st == Done ==> PageSeen(dev, blocks, copied, from, 4))
    {
      st := Done;
      ghost var h := pool[0];
      copied, from := [false, false, false, false], [h, h, h, h];
      PageStart(page[..], dev, blocks, h);
      var i := 0;
      while i < 4
        invariant 0 <= i <= 4 && st == Done
        invariant Valid() && DriversKept() && Owns(pool[..], held + Refs(bh[i..]))
        invariant Keeps(old(pool[..]), pool[..], held + Refs(bh[i..]))
        invariant |env.steps| <= old(|env.steps|)
        invariant PageDone(page[..], old(page[..]), dev, blocks, copied, from, i)
      {
        st, copied, from := PageCopyNext(page, dev, blocks, bh, i, held, old(pool[..]), old(page[..]), copied, from);
        if st == Asleep {
          return;
        }
        i := i + 1;
      }
      assert held + Refs(bh[4..]) == held;
    }

    /** bread_page(address, dev, b): read the (up to) four blocks of `blocks`
        into the 4 KB page `page`, kilobyte k from block blocks[k]. A zero
        block number leaves its kilobyte alone; every other kilobyte is
        overwritten only with the data of an up-to-date buffer of that block,
        and every buffer got is released again. */
    method BreadPage(page: array<Byte>, dev: int, blocks: seq<int>, held: multiset<int>)
      returns (st: Status, ghost copied: seq<bool>, ghost from: seq<BufferHead>)
      requires Valid() && Owns(pool[..], held) && 0 <= dev < 0x1_0000 && page.Length == 4 * BLOCK_SIZE
      requires |blocks| == 4 && forall k :: 0 <= k < 4 ==> 0 <= blocks[k] < 0x8000_0000
      modifies this, pool, hashTable, rq, rq.request, rq.blkDev, env, page
      ensures Valid() && DriversKept() && Owns(pool[..], held) && Keeps(old(pool[..]), pool[..], held)
      ensures |env.steps| <= old(|env.steps|) && (st == Done || st == Spins || (st == Asleep && env.steps == []))
      ensures PageFrom(page[..], old(page[..]), copied, from) && CopiedFrom(dev, blocks, copied, from)
      ensures st == Done ==> PageSeen(dev, blocks, copied, from, 4)
    {
      var bh;
      st, bh := PageGet(dev, blocks, held);
      ghost var h := pool[0];
      copied, from := [false, false, false, false], [h, h, h, h];
      if st != Done {
        return;
      }
      ghost var got := pool[..];
      st, copied, from := PageCopy(page, dev, blocks, bh, held);
      KeepsTrans(old(pool[..]), got, pool[..], held);
    }
  }
}
