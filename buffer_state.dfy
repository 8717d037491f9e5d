/** The buffer pool of fs/buffer.c as a value: the buffer heads, the 307
    hash-bucket heads, the free-list head, and two witnesses of its linked
    structure: `ring`, the free ring in order starting at the free-list head,
    and `chains`, the hash chains in order. `Inv` is the structural invariant
    the cache keeps; `Rely` is what other tasks may do to the pool while the
    current task sleeps. The relinking done by remove_from_queues and
    insert_into_queues is stated here on values (`Unqueued`, `Enqueued`),
    together with what it preserves. */
module BufferState {
  import opened FsDefs

  /** Bitwise exclusive or of two naturals. */
  function Xor(a: nat, b: nat): (r: nat)
    decreases a + b
  {
    if a == 0 then b
    else if b == 0 then a
    else 2 * Xor(a / 2, b / 2) + (if a % 2 == b % 2 then 0 else 1)
  }

  /** _hashfn: ((unsigned)(dev ^ block)) % NR_HASH; both operands are
      non-negative and below 2^31, so the cast changes nothing. */
  function HashFn(dev: int, block: int): (h: int)
    requires 0 <= dev < 0x1_0000 && 0 <= block < 0x8000_0000
    ensures 0 <= h < NR_HASH
  {
    Xor(dev, block) % NR_HASH
  }

  predicate KeyInRange(b: BufferHead)
  {
    0 <= b.dev < 0x1_0000 && 0 <= b.blocknr < 0x8000_0000
  }

  /** A buffer sits in a hash chain exactly while its device is non-zero. */
  predicate Hashed(b: BufferHead)
  {
    b.dev != 0
  }

  function BucketOf(b: BufferHead): int
    requires KeyInRange(b)
  {
    HashFn(b.dev, b.blocknr)
  }

  /** BADNESS(bh): twice the dirty flag plus the lock flag. */
  function Badness(b: BufferHead): (r: int)
    ensures 0 <= r <= 3
    ensures r == 0 <==> !b.dirt && !b.lock
  {
    (if b.dirt then 2 else 0) + (if b.lock then 1 else 0)
  }

  datatype PoolState = PoolState(bufs: seq<BufferHead>, hash: seq<int>, freeList: int,
                                 ring: seq<int>, chains: seq<seq<int>>)

  /** Position k of the free ring: b_next_free and b_prev_free of ring[k]
      name its successor and predecessor in the cycle. */
  predicate RingLinkAt(bufs: seq<BufferHead>, ring: seq<int>, k: int)
    requires 0 <= k < |ring| && 0 <= ring[k] < |bufs|
  {
    bufs[ring[k]].nextFree == (if k + 1 < |ring| then ring[k + 1] else ring[0]) &&
    bufs[ring[k]].prevFree == (if k > 0 then ring[k - 1] else ring[|ring| - 1])
  }

  /** `ring` is one cycle through the free-list links: it starts at
      `freeList`, names distinct buffers, and is linked both ways. */
  predicate Cycle(bufs: seq<BufferHead>, freeList: int, ring: seq<int>)
  {
    |ring| > 0 && ring[0] == freeList &&
    (forall k :: 0 <= k < |ring| ==> 0 <= ring[k] < |bufs|) &&
    (forall i, j :: 0 <= i < j < |ring| ==> ring[i] != ring[j]) &&
    (forall k :: 0 <= k < |ring| ==> RingLinkAt(bufs, ring, k))
  }

  /** The free ring is a single cycle through every buffer. */
  predicate RingOk(bufs: seq<BufferHead>, freeList: int, ring: seq<int>)
  {
    Cycle(bufs, freeList, ring) && forall b :: 0 <= b < |bufs| ==> b in ring
  }

  /** Position k of hash chain number h: c[k] is hashed, hashes to h,
      and its b_next and b_prev name its neighbours in the chain (-1 at the
      ends). */
  predicate ChainLinkAt(bufs: seq<BufferHead>, c: seq<int>, h: int, k: int)
    requires 0 <= k < |c| && 0 <= c[k] < |bufs|
  {
    Hashed(bufs[c[k]]) && KeyInRange(bufs[c[k]]) && BucketOf(bufs[c[k]]) == h &&
    bufs[c[k]].next == (if k + 1 < |c| then c[k + 1] else -1) &&
    bufs[c[k]].prev == (if k > 0 then c[k - 1] else -1)
  }

  /** Hash chain number h: starts at `head`, holds distinct buffers, and is
      linked both ways through next/prev. */
  predicate ChainOk(bufs: seq<BufferHead>, head: int, c: seq<int>, h: int)
  {
    head == (if c == [] then -1 else c[0]) &&
    (forall k :: 0 <= k < |c| ==> 0 <= c[k] < |bufs|) &&
    (forall i, j :: 0 <= i < j < |c| ==> c[i] != c[j]) &&
    (forall k :: 0 <= k < |c| ==> ChainLinkAt(bufs, c, h, k))
  }

  predicate ChainsOk(bufs: seq<BufferHead>, hash: seq<int>, chains: seq<seq<int>>)
  {
    |hash| == NR_HASH && |chains| == NR_HASH &&
    forall h {:trigger ChainOk(bufs, hash[h], chains[h], h)} :: 0 <= h < NR_HASH ==> ChainOk(bufs, hash[h], chains[h], h)
  }

  /** Every buffer other than `except` has a key in range and a 1024-byte
      block; a hashed one is in the chain of its bucket, an unhashed one has
      no chain links. */
  predicate CompleteExcept(bufs: seq<BufferHead>, chains: seq<seq<int>>, except: int)
    requires |chains| == NR_HASH
  {
    forall b :: 0 <= b < |bufs| && b != except ==>
      KeyInRange(bufs[b]) && |bufs[b].data| == BLOCK_SIZE &&
      (Hashed(bufs[b]) ==> b in chains[BucketOf(bufs[b])]) &&
      (!Hashed(bufs[b]) ==> bufs[b].next == -1 && bufs[b].prev == -1)
  }

  predicate Complete(bufs: seq<BufferHead>, chains: seq<seq<int>>)
    requires |chains| == NR_HASH
  {
    CompleteExcept(bufs, chains, -1)
  }

  /** Buffers i and j do not both carry the same key in the hash table. */
  predicate DiffKeys(bufs: seq<BufferHead>, i: int, j: int)
    requires 0 <= i < |bufs| && 0 <= j < |bufs|
  {
    Hashed(bufs[i]) && Hashed(bufs[j]) ==> (bufs[i].dev, bufs[i].blocknr) != (bufs[j].dev, bufs[j].blocknr)
  }

  /** At most one hashed buffer per (dev, block). */
  predicate KeysUnique(bufs: seq<BufferHead>)
  {
    forall i, j :: 0 <= i < |bufs| && 0 <= j < |bufs| && i != j ==> DiffKeys(bufs, i, j)
  }

  predicate Inv(p: PoolState)
  {
    |p.bufs| >= 2 &&
    RingOk(p.bufs, p.freeList, p.ring) &&
    ChainsOk(p.bufs, p.hash, p.chains) &&
    Complete(p.bufs, p.chains) &&
    KeysUnique(p.bufs)
  }

  /** Buffer b is out of both queues (between remove_from_queues and
      insert_into_queues): the ring and the chains hold every other buffer
      and not b; b's key is in range and its links mean nothing. */
  predicate Detached(p: PoolState, b: int)
  {
    |p.bufs| >= 2 && 0 <= b < |p.bufs| &&
    Cycle(p.bufs, p.freeList, p.ring) && b !in p.ring &&
    (forall x :: 0 <= x < |p.bufs| && x != b ==> x in p.ring) &&
    ChainsOk(p.bufs, p.hash, p.chains) &&
    (forall h :: 0 <= h < NR_HASH ==> b !in p.chains[h]) &&
    CompleteExcept(p.bufs, p.chains, b) &&
    KeyInRange(p.bufs[b]) && |p.bufs[b].data| == BLOCK_SIZE &&
    KeysUnique(p.bufs)
  }

  /** No hashed buffer carries the key (dev, block). */
  predicate Absent(bufs: seq<BufferHead>, dev: int, block: int)
  {
    forall y :: 0 <= y < |bufs| ==> !(Hashed(bufs[y]) && bufs[y].dev == dev && bufs[y].blocknr == block)
  }

  /** Two buffer heads that differ at most in their uptodate, dirt and lock flags. */
  predicate FlagsOnly(a: BufferHead, b: BufferHead)
  {
    a == b.(uptodate := a.uptodate, dirt := a.dirt, lock := a.lock)
  }

  /** Two buffer heads that differ at most in their four link fields. */
  predicate LinksOnly(a: BufferHead, b: BufferHead)
  {
    a == b.(prev := a.prev, next := a.next, prevFree := a.prevFree, nextFree := a.nextFree)
  }

  /** Two pools that differ at most in flags and reference counts: the linked
      structure, every key and every block are the same. */
  predicate SameShape(a: seq<BufferHead>, b: seq<BufferHead>)
  {
    |a| == |b| &&
    forall i :: 0 <= i < |a| ==>
      a[i] == b[i].(uptodate := a[i].uptodate, dirt := a[i].dirt, lock := a[i].lock, count := a[i].count)
  }

  lemma SameShapeFields(a: seq<BufferHead>, b: seq<BufferHead>)
    requires SameShape(a, b)
    ensures forall i :: 0 <= i < |a| ==>
      a[i].dev == b[i].dev && a[i].blocknr == b[i].blocknr && a[i].addr == b[i].addr && a[i].data == b[i].data &&
      a[i].next == b[i].next && a[i].prev == b[i].prev &&
      a[i].nextFree == b[i].nextFree && a[i].prevFree == b[i].prevFree
  {
    forall i | 0 <= i < |a|
      ensures a[i].dev == b[i].dev && a[i].blocknr == b[i].blocknr && a[i].addr == b[i].addr && a[i].data == b[i].data &&
              a[i].next == b[i].next && a[i].prev == b[i].prev &&
              a[i].nextFree == b[i].nextFree && a[i].prevFree == b[i].prevFree
    {
      assert a[i] == b[i].(uptodate := a[i].uptodate, dirt := a[i].dirt, lock := a[i].lock, count := a[i].count);
    }
  }

  /** Changing flags and counts keeps the pool well formed. */
  lemma InvSameShape(p: PoolState, bufs: seq<BufferHead>)
    requires Inv(p) && SameShape(bufs, p.bufs)
    ensures Inv(p.(bufs := bufs))
  {
    SameShapeFields(bufs, p.bufs);
    forall k | 0 <= k < |p.ring|
      ensures RingLinkAt(bufs, p.ring, k)
    {
      assert RingLinkAt(p.bufs, p.ring, k);
    }
    assert RingOk(bufs, p.freeList, p.ring);
    forall h | 0 <= h < NR_HASH
      ensures ChainOk(bufs, p.hash[h], p.chains[h], h)
    {
      var c := p.chains[h];
      assert ChainOk(p.bufs, p.hash[h], c, h);
      forall k | 0 <= k < |c|
        ensures ChainLinkAt(bufs, c, h, k)
      {
        assert ChainLinkAt(p.bufs, c, h, k);
      }
    }
    assert ChainsOk(bufs, p.hash, p.chains);
    assert Complete(bufs, p.chains);
    forall i, j | 0 <= i < |bufs| && 0 <= j < |bufs| && i != j
      ensures DiffKeys(bufs, i, j)
    {
      assert DiffKeys(p.bufs, i, j);
    }
  }

  lemma FlagsOnlyShape(a: seq<BufferHead>, b: seq<BufferHead>)
    requires |a| == |b| && forall i :: 0 <= i < |a| ==> FlagsOnly(a[i], b[i])
    ensures SameShape(a, b)
  {
  }

  /** The references a task holds (a multiset of buffer indices) are all counted. */
  predicate Owns(bufs: seq<BufferHead>, held: multiset<int>)
  {
    forall b :: b in held ==> 0 <= b < |bufs| && bufs[b].count >= held[b]
  }

  /** What a sleep cannot change for the sleeping task: the number of
      buffers, every data address, and the key of every buffer it holds. */
  predicate Keeps(before: seq<BufferHead>, after: seq<BufferHead>, held: multiset<int>)
  {
    |after| == |before| &&
    forall b :: 0 <= b < |before| ==>
      after[b].addr == before[b].addr &&
      (held[b] > 0 ==> after[b].dev == before[b].dev && after[b].blocknr == before[b].blocknr)
  }

  /** The references held in a list of buffers, -1 standing for none. */
  function Refs(bh: seq<int>): multiset<int>
  {
    if bh == [] then multiset{} else Ref(bh[0]) + Refs(bh[1..])
  }

  function Ref(b: int): multiset<int>
  {
    if b == -1 then multiset{} else multiset{b}
  }

  lemma RefsFront(bh: seq<int>, i: int)
    requires 0 <= i < |bh|
    ensures Refs(bh[i..]) == Ref(bh[i]) + Refs(bh[i + 1..])
  {
    assert bh[i..][1..] == bh[i + 1..];
  }

  lemma {:induction false} RefsHas(bh: seq<int>, k: int)
    requires 0 <= k < |bh| && bh[k] != -1
    ensures bh[k] in Refs(bh)
  {
    if k > 0 {
      RefsHas(bh[1..], k - 1);
    }
  }

  lemma {:induction false} RefsSnoc(bh: seq<int>, b: int)
    ensures Refs(bh + [b]) == Refs(bh) + Ref(b)
  {
    if bh != [] {
      assert (bh + [b])[1..] == bh[1..] + [b];
      RefsSnoc(bh[1..], b);
    }
  }

  /** Fewer references are still counted and constrain less. */
  lemma HoldLess(before: seq<BufferHead>, after: seq<BufferHead>, held: multiset<int>, extra: multiset<int>)
    requires Owns(after, held + extra) && Keeps(before, after, held + extra)
    ensures Owns(after, held) && Keeps(before, after, held)
  {
    forall y | y in held
      ensures 0 <= y < |after| && after[y].count >= held[y]
    {
      assert y in held + extra;
    }
  }

  lemma OwnsLess(bufs: seq<BufferHead>, held: multiset<int>, b: int)
    requires Owns(bufs, held)
    ensures Owns(bufs, held - multiset{b})
  {
    forall y | y in held - multiset{b}
      ensures 0 <= y < |bufs| && bufs[y].count >= (held - multiset{b})[y]
    {
      assert y in held;
    }
  }

  lemma KeepsTrans(a: seq<BufferHead>, b: seq<BufferHead>, c: seq<BufferHead>, held: multiset<int>)
    requires Keeps(a, b, held) && Keeps(b, c, held)
    ensures Keeps(a, c, held)
  {
  }

  /** What one step of sync_dev(d) may do to a buffer, `before` being the
      buffer when its turn came and `driver` whether d has a driver: only its
      flags change; a buffer of d was not locked (the wait for it took no
      sleep); a dirty buffer of d with a driver is now locked and clean; any
      other buffer is untouched. */
  predicate Synced(d: int, before: BufferHead, after: BufferHead, driver: bool)
  {
    FlagsOnly(after, before) &&
    (before.dev == d ==> !before.lock) &&
    (before.dev == d && before.dirt && driver ==> after.lock && !after.dirt) &&
    (!(before.dev == d && before.dirt && driver) ==> after == before)
  }

  /** Two passes of sync_dev(d) in which no other task ran changed nothing:
      the first found no buffer of d locked, and none of them dirty with a
      driver, since the first pass would have locked it and the second would
      then have had to wait for it. */
  lemma SyncedTwice(d: int, a: BufferHead, b: BufferHead, c: BufferHead, driver: bool)
    requires Synced(d, a, b, driver) && Synced(d, b, c, driver)
    ensures c == a && (a.dev == d ==> !a.lock && !(a.dirt && driver))
  {
  }

  /** What invalidate_buffers(d) does to a buffer: a buffer of d is marked
      neither up to date nor dirty. */
  function Invalidated(d: int, b: BufferHead): (r: BufferHead)
    ensures FlagsOnly(r, b) && r.lock == b.lock
    ensures r.dev == d ==> !r.uptodate && !r.dirt
    ensures r.dev != d ==> r == b
  {
    if b.dev == d then b.(uptodate := false, dirt := false) else b
  }

  /** A buffer getblk has just claimed for (dev, block): that key, one
      reference, unlocked, clean, and its contents not yet read. */
  predicate Fresh(b: BufferHead, dev: int, block: int)
  {
    b.dev == dev && b.blocknr == block && b.count == 1 && !b.lock && !b.dirt && !b.uptodate
  }

  /** Buffer y is one getblk passes over when it looks for a victim in a
      pool nobody else touches: it is in use, dirty or locked. */
  predicate Busy(bufs: seq<BufferHead>, y: int)
  {
    0 <= y < |bufs| && (bufs[y].count > 0 || Badness(bufs[y]) > 0)
  }

  /** r is the first buffer of the free ring, from the free-list head, that
      is unused, clean and unlocked: the least recently used free buffer. */
  ghost predicate FirstFree(p: PoolState, r: int)
  {
    0 <= r < |p.bufs| && r in p.ring && p.bufs[r].count == 0 && Badness(p.bufs[r]) == 0 &&
    forall k :: 0 <= k < IndexOf(p.ring, r) ==> Busy(p.bufs, p.ring[k])
  }

  /** A buffer of BADNESS 0 and count 0 before which, in ring order, every
      unused buffer is worse, is the first free one. */
  lemma FirstFreeWhenClean(p: PoolState, r: int)
    requires Cycle(p.bufs, p.freeList, p.ring) && 0 <= r < |p.bufs| && r in p.ring
    requires p.bufs[r].count == 0 && Badness(p.bufs[r]) == 0
    requires forall k :: 0 <= k < IndexOf(p.ring, r) && p.bufs[p.ring[k]].count == 0 ==>
               Badness(p.bufs[p.ring[k]]) > Badness(p.bufs[r])
    ensures FirstFree(p, r)
  {
  }

  /** What other tasks may have done to the pool while this task slept: the
      result is again a well-formed pool; no lock flag and no data address
      changed (locks are released only by completed transfers); every
      reference this task holds (`held`) or has speculatively taken (`pinned`)
      is still counted; and a buffer this task holds keeps its key, because it
      can be recycled only once its count is 0. */
  predicate Rely(before: seq<BufferHead>, p: PoolState, held: multiset<int>, pinned: multiset<int>)
  {
    |p.bufs| == |before| && Inv(p) &&
    (forall b :: b in held + pinned ==> 0 <= b < |before|) &&
    (forall b :: 0 <= b < |before| ==>
       p.bufs[b].lock == before[b].lock && p.bufs[b].addr == before[b].addr &&
       p.bufs[b].count >= held[b] + pinned[b] &&
       (held[b] > 0 ==> p.bufs[b].dev == before[b].dev && p.bufs[b].blocknr == before[b].blocknr))
  }

  lemma RelyKeeps(before: seq<BufferHead>, p: PoolState, held: multiset<int>, pinned: multiset<int>)
    requires Rely(before, p, held, pinned)
    ensures Keeps(before, p.bufs, held) && Owns(p.bufs, held + pinned)
  {
  }

  // ---------------------------------------------------------------------
  // Positions in the ring and the chains.

  ghost function IndexOf(s: seq<int>, x: int): (i: int)
    requires x in s
    ensures 0 <= i < |s| && s[i] == x
  {
    if s[0] == x then 0 else 1 + IndexOf(s[1..], x)
  }

  /** s without its element at position i. */
  function Drop(s: seq<int>, i: int): (r: seq<int>)
    requires 0 <= i < |s|
    ensures |r| == |s| - 1
    ensures forall k :: 0 <= k < |r| ==> r[k] == (if k < i then s[k] else s[k + 1])
  {
    s[..i] + s[i + 1..]
  }

  /** The hash links of an indexed buffer are -1 or buffers, its free links buffers. */
  predicate LinksInRange(bufs: seq<BufferHead>, b: int)
    requires 0 <= b < |bufs|
  {
    -1 <= bufs[b].next < |bufs| && -1 <= bufs[b].prev < |bufs| &&
    0 <= bufs[b].nextFree < |bufs| && 0 <= bufs[b].prevFree < |bufs|
  }

  /** What taking b out of the queues needs: its links name buffers (the
      chain links may be NULL), its key is in range, and it is in the ring
      and, when hashed, in the chain of its bucket. */
  predicate Queued(p: PoolState, b: int)
  {
    0 <= b < |p.bufs| && LinksInRange(p.bufs, b) && KeyInRange(p.bufs[b]) &&
    |p.hash| == NR_HASH && |p.chains| == NR_HASH && b in p.ring &&
    (Hashed(p.bufs[b]) ==> b in p.chains[BucketOf(p.bufs[b])])
  }

  /** Where a buffer of a well-formed pool sits: its position in the ring
      with its two ring neighbours, and, when hashed, its position in its
      chain with its two chain neighbours. */
  lemma Placed(p: PoolState, b: int)
    requires Inv(p) && 0 <= b < |p.bufs|
    ensures Queued(p, b)
    ensures var i := IndexOf(p.ring, b);
      p.bufs[b].nextFree == (if i + 1 < |p.ring| then p.ring[i + 1] else p.ring[0]) &&
      p.bufs[b].prevFree == (if i > 0 then p.ring[i - 1] else p.ring[|p.ring| - 1])
    ensures Hashed(p.bufs[b]) ==>
      var c := p.chains[BucketOf(p.bufs[b])];
      b in c && var j := IndexOf(c, b);
      p.bufs[b].next == (if j + 1 < |c| then c[j + 1] else -1) &&
      p.bufs[b].prev == (if j > 0 then c[j - 1] else -1)
    ensures !Hashed(p.bufs[b]) ==> p.bufs[b].next == -1 && p.bufs[b].prev == -1
  {
    assert b in p.ring;
    var i := IndexOf(p.ring, b);
    assert RingLinkAt(p.bufs, p.ring, i);
    if Hashed(p.bufs[b]) {
      var h := BucketOf(p.bufs[b]);
      assert ChainOk(p.bufs, p.hash[h], p.chains[h], h);
      var j := IndexOf(p.chains[h], b);
      assert ChainLinkAt(p.bufs, p.chains[h], h, j);
    }
  }
}
