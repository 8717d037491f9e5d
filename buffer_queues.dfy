/** The relinking of fs/buffer.c on values: remove_from_queues takes a
    buffer out of its hash chain and the free ring, insert_into_queues puts
    it back at the tail of the free ring and at the head of the chain of its
    (new) key. Proved here: removal leaves every other buffer queued and the
    pool otherwise well formed (`Detached`), a key change on a detached
    buffer keeps that, and insertion restores the full invariant. */
module BufferQueues {
  import opened FsDefs
  import opened BufferState

  datatype Linked = Stored(p: PoolState) | NullStore

  /** The first half of remove_from_queues: the chain neighbours pr and nx
      (-1 = NULL) of a buffer are linked to each other. */
  function Relinked(bufs: seq<BufferHead>, pr: int, nx: int): (r: seq<BufferHead>)
    requires -1 <= pr < |bufs| && -1 <= nx < |bufs|
    ensures |r| == |bufs|
    ensures forall y {:trigger r[y]} :: 0 <= y < |bufs| ==>
      r[y] == bufs[y].(next := (if y == pr then nx else bufs[y].next),
                       prev := (if y == nx then pr else bufs[y].prev))
  {
    var s1 := if nx != -1 then bufs[nx := bufs[nx].(prev := pr)] else bufs;
    if pr != -1 then s1[pr := s1[pr].(next := nx)] else s1
  }

  /** The second half: the free-ring neighbours pf and nf are linked to each other. */
  function RelinkedFree(bufs: seq<BufferHead>, pf: int, nf: int): (r: seq<BufferHead>)
    requires 0 <= pf < |bufs| && 0 <= nf < |bufs|
    ensures |r| == |bufs|
    ensures forall y {:trigger r[y]} :: 0 <= y < |bufs| ==>
      r[y] == bufs[y].(nextFree := (if y == pf then nf else bufs[y].nextFree),
                       prevFree := (if y == nf then pf else bufs[y].prevFree))
  {
    var s1 := bufs[pf := bufs[pf].(nextFree := nf)];
    s1[nf := s1[nf].(prevFree := pf)]
  }

  /** remove_from_queues(b): the chain neighbours are linked to each other
      and the bucket head moves on if it was b; the free-ring neighbours are
      linked to each other and the free-list head moves on if it was b. b's
      own links are left as they were. */
  ghost function Unqueued(p: PoolState, b: int): (r: PoolState)
    requires Queued(p, b)
  {
    var x := p.bufs[b];
    var h := BucketOf(x);
    var chains := if Hashed(x) then p.chains[h := Drop(p.chains[h], IndexOf(p.chains[h], b))] else p.chains;
    PoolState(UnlinkedBufs(p.bufs, b), HashWithout(p.bufs, p.hash, b), if p.freeList == b then x.nextFree else p.freeList,
              Drop(p.ring, IndexOf(p.ring, b)), chains)
  }

  /** The buffer heads after remove_from_queues(b). */
  function UnlinkedBufs(bufs: seq<BufferHead>, b: int): seq<BufferHead>
    requires 0 <= b < |bufs| && LinksInRange(bufs, b)
  {
    var x := bufs[b];
    RelinkedFree(Relinked(bufs, x.prev, x.next), x.prevFree, x.nextFree)
  }

  /** The hash table after remove_from_queues(b): the bucket head moves on if it was b. */
  function HashWithout(bufs: seq<BufferHead>, hash: seq<int>, b: int): seq<int>
    requires 0 <= b < |bufs| && KeyInRange(bufs[b]) && |hash| == NR_HASH
  {
    var h := BucketOf(bufs[b]);
    if hash[h] == b then hash[h := bufs[b].next] else hash
  }

  /** insert_into_queues on the buffer heads: b goes between `last` and `fl`
      in the free ring and in front of `head` (-1: none) in its chain. */
  function Spliced(bufs: seq<BufferHead>, b: int, fl: int, last: int, head: int): (r: seq<BufferHead>)
    requires 0 <= b < |bufs| && 0 <= fl < |bufs| && 0 <= last < |bufs| && -1 <= head < |bufs|
    requires b != fl && b != last && b != head
    ensures |r| == |bufs|
    ensures r[b] == bufs[b].(nextFree := fl, prevFree := last, prev := -1, next := head)
    ensures forall y {:trigger r[y]} :: 0 <= y < |bufs| && y != b ==>
      r[y] == bufs[y].(nextFree := (if y == last then b else bufs[y].nextFree),
                       prevFree := (if y == fl then b else bufs[y].prevFree),
                       prev := (if y == head then b else bufs[y].prev))
  {
    var s1 := bufs[b := bufs[b].(nextFree := fl, prevFree := last)];
    var s2 := s1[last := s1[last].(nextFree := b)];
    var s3 := s2[fl := s2[fl].(prevFree := b)];
    var s4 := s3[b := s3[b].(prev := -1, next := -1)];
    var s5 := s4[b := s4[b].(next := head)];
    if head != -1 then s5[head := s5[head].(prev := b)] else s5
  }

  /** What insert_into_queues needs of a pool and b: the free-list head and
      its predecessor are buffers other than b, b's key is in range, and the
      head of b's bucket is NULL or a buffer other than b. */
  predicate Insertable(p: PoolState, b: int)
  {
    0 <= b < |p.bufs| && 0 <= p.freeList < |p.bufs| && 0 <= p.bufs[p.freeList].prevFree < |p.bufs| &&
    b != p.freeList && b != p.bufs[p.freeList].prevFree && KeyInRange(p.bufs[b]) &&
    |p.hash| == NR_HASH && |p.chains| == NR_HASH &&
    (Hashed(p.bufs[b]) ==> -1 <= p.hash[BucketOf(p.bufs[b])] < |p.bufs| && p.hash[BucketOf(p.bufs[b])] != b)
  }

  /** The old head of b's bucket when b is hashed, else -1. */
  function HeadOf(bufs: seq<BufferHead>, hash: seq<int>, b: int): int
    requires 0 <= b < |bufs| && KeyInRange(bufs[b]) && |hash| == NR_HASH
  {
    if Hashed(bufs[b]) then hash[BucketOf(bufs[b])] else -1
  }

  /** The hash table after b is put at the head of its bucket (if hashed). */
  function HashWith(bufs: seq<BufferHead>, hash: seq<int>, b: int): seq<int>
    requires 0 <= b < |bufs| && KeyInRange(bufs[b]) && |hash| == NR_HASH
  {
    if Hashed(bufs[b]) then hash[BucketOf(bufs[b]) := b] else hash
  }

  /** insert_into_queues(b) with the store into the old bucket head guarded:
      b goes in front of the free-list head (the tail of the ring) and, when
      its device is non-zero, in front of its bucket. */
  ghost function Enqueued(p: PoolState, b: int): (r: PoolState)
    requires Insertable(p, b)
  {
    var x := p.bufs[b];
    var fl := p.freeList;
    var h := BucketOf(x);
    PoolState(Spliced(p.bufs, b, fl, p.bufs[fl].prevFree, HeadOf(p.bufs, p.hash, b)), HashWith(p.bufs, p.hash, b), fl,
              p.ring + [b], if Hashed(x) then p.chains[h := [b] + p.chains[h]] else p.chains)
  }

  /** insert_into_queues as written: the last statement stores b into the
      b_prev field of the old bucket head without testing it, so when the
      bucket was empty the store goes through NULL. */
  ghost function EnqueuedAsWritten(p: PoolState, b: int): (r: Linked)
    requires Insertable(p, b)
  {
    // b_dev != 0 (the early return not taken), and `bh->b_next = hash(...)`
    // read NULL from the empty bucket: `bh->b_next->b_prev = bh` faults.
    if Hashed(p.bufs[b]) && p.hash[BucketOf(p.bufs[b])] == -1 then NullStore
    // b_dev == 0 returns after the four free-list stores and the two NULL
    // link stores; otherwise the old head's b_prev is a real buffer. Both
    // store sequences are exactly Enqueued's.
    else Stored(Enqueued(p, b))
  }

  /** The source stores through NULL exactly when a hashed buffer is
      inserted into an empty bucket; everywhere else it agrees with the
      guarded version. */
  lemma AsWrittenStoresThroughNull(p: PoolState, b: int)
    requires Detached(p, b)
    ensures Insertable(p, b)
    ensures EnqueuedAsWritten(p, b) == NullStore <==>
              Hashed(p.bufs[b]) && p.chains[BucketOf(p.bufs[b])] == []
    ensures EnqueuedAsWritten(p, b) != NullStore ==> EnqueuedAsWritten(p, b) == Stored(Enqueued(p, b))
  {
    DetachedInsertable(p, b);
    var h := BucketOf(p.bufs[b]);
    assert ChainOk(p.bufs, p.hash[h], p.chains[h], h);
  }

  /** A detached buffer can be inserted. */
  lemma DetachedInsertable(p: PoolState, b: int)
    requires Detached(p, b)
    ensures Insertable(p, b)
    ensures p.bufs[p.freeList].prevFree == p.ring[|p.ring| - 1]
  {
    var m := |p.ring|;
    assert RingLinkAt(p.bufs, p.ring, 0);
    assert p.ring[0] in p.ring && p.ring[m - 1] in p.ring;
    var x := p.bufs[b];
    if Hashed(x) {
      var h := BucketOf(x);
      assert ChainOk(p.bufs, p.hash[h], p.chains[h], h);
      if p.hash[h] != -1 {
        assert p.chains[h][0] in p.chains[h];
      }
    }
  }

  // ---------------------------------------------------------------------
  // Sequence facts.

  lemma DropDistinct(s: seq<int>, i: int)
    requires 0 <= i < |s| && forall a, c :: 0 <= a < c < |s| ==> s[a] != s[c]
    ensures forall a, c :: 0 <= a < c < |Drop(s, i)| ==> Drop(s, i)[a] != Drop(s, i)[c]
  {
    var r := Drop(s, i);
    forall a, c | 0 <= a < c < |r|
      ensures r[a] != r[c]
    {
      var a' := if a < i then a else a + 1;
      var c' := if c < i then c else c + 1;
      assert r[a] == s[a'] && r[c] == s[c'] && a' < c';
    }
  }

  /** Dropping position i of a sequence of distinct values removes exactly s[i]. */
  lemma DropMembers(s: seq<int>, i: int)
    requires 0 <= i < |s| && forall a, c :: 0 <= a < c < |s| ==> s[a] != s[c]
    ensures s[i] !in Drop(s, i)
    ensures forall y :: y in s && y != s[i] ==> y in Drop(s, i)
    ensures forall y :: y in Drop(s, i) ==> y in s
  {
    var r := Drop(s, i);
    forall y | y in s && y != s[i]
      ensures y in r
    {
      var k := IndexOf(s, y);
      if k < i {
        assert r[k] == y;
      } else {
        assert r[k - 1] == y;
      }
    }
    forall k | 0 <= k < |r|
      ensures r[k] != s[i] && r[k] in s
    {
      var k' := if k < i then k else k + 1;
      assert r[k] == s[k'] && k' != i;
    }
  }

  // ---------------------------------------------------------------------
  // Removal from the free ring.

  /** Unlinking position i of a cycle of at least two buffers leaves the
      cycle without that buffer, starting at its successor when it was the
      head. */
  lemma CycleDrop(bufs: seq<BufferHead>, fl: int, ring: seq<int>, i: int, bufs': seq<BufferHead>, fl': int)
    requires Cycle(bufs, fl, ring) && |ring| >= 2 && 0 <= i < |ring| && |bufs'| == |bufs|
    requires var pf, nf := bufs[ring[i]].prevFree, bufs[ring[i]].nextFree;
      forall y :: 0 <= y < |bufs| ==>
        bufs'[y].nextFree == (if y == pf then nf else bufs[y].nextFree) &&
        bufs'[y].prevFree == (if y == nf then pf else bufs[y].prevFree)
    requires fl' == (if i == 0 then bufs[ring[i]].nextFree else fl)
    ensures Cycle(bufs', fl', Drop(ring, i))
  {
    var m := |ring|;
    var r := Drop(ring, i);
    DropDistinct(ring, i);
    assert RingLinkAt(bufs, ring, i);
    forall k | 0 <= k < m - 1
      ensures RingLinkAt(bufs', r, k)
    {
      CycleDropAt(bufs, fl, ring, i, bufs', k);
    }
  }

  /** The links at position k of the shortened cycle. */
  lemma CycleDropAt(bufs: seq<BufferHead>, fl: int, ring: seq<int>, i: int, bufs': seq<BufferHead>, k: int)
    requires Cycle(bufs, fl, ring) && |ring| >= 2 && 0 <= i < |ring| && |bufs'| == |bufs|
    requires var pf, nf := bufs[ring[i]].prevFree, bufs[ring[i]].nextFree;
      forall y :: 0 <= y < |bufs| ==>
        bufs'[y].nextFree == (if y == pf then nf else bufs[y].nextFree) &&
        bufs'[y].prevFree == (if y == nf then pf else bufs[y].prevFree)
    requires 0 <= k < |ring| - 1
    ensures 0 <= Drop(ring, i)[k] < |bufs'| && RingLinkAt(bufs', Drop(ring, i), k)
  {
    assert Drop(ring, i)[k] == ring[if k < i then k else k + 1];
    CycleDropNext(bufs, fl, ring, i, bufs', k);
    CycleDropPrev(bufs, fl, ring, i, bufs', k);
  }

  lemma CycleDropNext(bufs: seq<BufferHead>, fl: int, ring: seq<int>, i: int, bufs': seq<BufferHead>, k: int)
    requires Cycle(bufs, fl, ring) && |ring| >= 2 && 0 <= i < |ring| && |bufs'| == |bufs|
    requires var pf, nf := bufs[ring[i]].prevFree, bufs[ring[i]].nextFree;
      forall y :: 0 <= y < |bufs| ==>
        bufs'[y].nextFree == (if y == pf then nf else bufs[y].nextFree)
    requires 0 <= k < |ring| - 1
    ensures var r, m := Drop(ring, i), |ring|;
      bufs'[r[k]].nextFree == (if k + 1 < m - 1 then r[k + 1] else r[0])
  {
    var m := |ring|;
    var r := Drop(ring, i);
    var ip := if i > 0 then i - 1 else m - 1;
    var iN := if i + 1 < m then i + 1 else 0;
    assert RingLinkAt(bufs, ring, i);
    var k' := if k < i then k else k + 1;
    assert r[k] == ring[k'];
    if k' == ip {
      assert bufs'[ring[k']].nextFree == ring[iN];
      if i == 0 {
        assert r[0] == ring[1];
      } else if i == m - 1 {
        assert r[0] == ring[0];
      } else {
        assert r[k + 1] == ring[i + 1];
      }
    } else {
      assert ring[k'] != ring[ip];
      assert bufs'[ring[k']].nextFree == bufs[ring[k']].nextFree;
      assert RingLinkAt(bufs, ring, k');
      if k' + 1 < m {
        assert r[k + 1] == ring[k' + 1];
      } else {
        assert r[0] == ring[0];
      }
    }
  }

  lemma CycleDropPrev(bufs: seq<BufferHead>, fl: int, ring: seq<int>, i: int, bufs': seq<BufferHead>, k: int)
    requires Cycle(bufs, fl, ring) && |ring| >= 2 && 0 <= i < |ring| && |bufs'| == |bufs|
    requires var pf, nf := bufs[ring[i]].prevFree, bufs[ring[i]].nextFree;
      forall y :: 0 <= y < |bufs| ==>
        bufs'[y].prevFree == (if y == nf then pf else bufs[y].prevFree)
    requires 0 <= k < |ring| - 1
    ensures var r, m := Drop(ring, i), |ring|;
      bufs'[r[k]].prevFree == (if k > 0 then r[k - 1] else r[m - 2])
  {
    var m := |ring|;
    var r := Drop(ring, i);
    var ip := if i > 0 then i - 1 else m - 1;
    var iN := if i + 1 < m then i + 1 else 0;
    assert RingLinkAt(bufs, ring, i);
    var k' := if k < i then k else k + 1;
    assert r[k] == ring[k'];
    if k' == iN {
      assert bufs'[ring[k']].prevFree == ring[ip];
      if i == 0 {
        assert r[m - 2] == ring[m - 1];
      } else if i == m - 1 {
        assert r[m - 2] == ring[m - 2];
      } else {
        assert r[k - 1] == ring[i - 1];
      }
    } else {
      assert ring[k'] != ring[iN];
      assert bufs'[ring[k']].prevFree == bufs[ring[k']].prevFree;
      assert RingLinkAt(bufs, ring, k');
      if k' > 0 {
        assert r[k - 1] == ring[k' - 1];
      } else {
        assert r[m - 2] == ring[m - 1];
      }
    }
  }

  // ---------------------------------------------------------------------
  // Removal from a hash chain.

  /** Unlinking position j of a chain leaves the chain without that buffer. */
  lemma ChainDrop(bufs: seq<BufferHead>, head: int, c: seq<int>, h: int, j: int, bufs': seq<BufferHead>, head': int)
    requires ChainOk(bufs, head, c, h) && 0 <= j < |c| && |bufs'| == |bufs|
    requires var pr, nx := bufs[c[j]].prev, bufs[c[j]].next;
      forall y :: 0 <= y < |bufs| ==>
        bufs'[y].dev == bufs[y].dev && bufs'[y].blocknr == bufs[y].blocknr &&
        bufs'[y].next == (if y == pr then nx else bufs[y].next) &&
        bufs'[y].prev == (if y == nx then pr else bufs[y].prev)
    requires head' == (if head == c[j] then bufs[c[j]].next else head)
    ensures ChainOk(bufs', head', Drop(c, j), h)
  {
    var r := Drop(c, j);
    DropDistinct(c, j);
    assert ChainLinkAt(bufs, c, h, j);
    assert head == c[j] <==> j == 0;
    forall k | 0 <= k < |r|
      ensures ChainLinkAt(bufs', r, h, k)
    {
      ChainDropAt(bufs, head, c, h, j, bufs', k);
    }
  }

  lemma ChainDropAt(bufs: seq<BufferHead>, head: int, c: seq<int>, h: int, j: int, bufs': seq<BufferHead>, k: int)
    requires ChainOk(bufs, head, c, h) && 0 <= j < |c| && |bufs'| == |bufs|
    requires var pr, nx := bufs[c[j]].prev, bufs[c[j]].next;
      forall y :: 0 <= y < |bufs| ==>
        bufs'[y].dev == bufs[y].dev && bufs'[y].blocknr == bufs[y].blocknr &&
        bufs'[y].next == (if y == pr then nx else bufs[y].next) &&
        bufs'[y].prev == (if y == nx then pr else bufs[y].prev)
    requires 0 <= k < |c| - 1
    ensures 0 <= Drop(c, j)[k] < |bufs'| && ChainLinkAt(bufs', Drop(c, j), h, k)
  {
    var k' := if k < j then k else k + 1;
    assert Drop(c, j)[k] == c[k'];
    assert ChainLinkAt(bufs, c, h, k');
    SameKey(bufs'[c[k']], bufs[c[k']]);
    ChainDropNext(bufs, head, c, h, j, bufs', k);
    ChainDropPrev(bufs, head, c, h, j, bufs', k);
  }

  lemma ChainDropNext(bufs: seq<BufferHead>, head: int, c: seq<int>, h: int, j: int, bufs': seq<BufferHead>, k: int)
    requires ChainOk(bufs, head, c, h) && 0 <= j < |c| && |bufs'| == |bufs|
    requires var pr, nx := bufs[c[j]].prev, bufs[c[j]].next;
      forall y :: 0 <= y < |bufs| ==> bufs'[y].next == (if y == pr then nx else bufs[y].next)
    requires 0 <= k < |c| - 1
    ensures var r := Drop(c, j); bufs'[r[k]].next == (if k + 1 < |c| - 1 then r[k + 1] else -1)
  {
    var n := |c|;
    var r := Drop(c, j);
    assert ChainLinkAt(bufs, c, h, j);
    var k' := if k < j then k else k + 1;
    assert r[k] == c[k'];
    if k' + 1 == j {
      assert bufs'[c[k']].next == bufs[c[j]].next;
      if j + 1 < n {
        assert r[k + 1] == c[j + 1];
      }
    } else {
      assert j > 0 ==> c[k'] != c[j - 1];
      assert bufs'[c[k']].next == bufs[c[k']].next;
      assert ChainLinkAt(bufs, c, h, k');
      if k' + 1 < n {
        assert r[k + 1] == c[k' + 1];
      }
    }
  }

  lemma ChainDropPrev(bufs: seq<BufferHead>, head: int, c: seq<int>, h: int, j: int, bufs': seq<BufferHead>, k: int)
    requires ChainOk(bufs, head, c, h) && 0 <= j < |c| && |bufs'| == |bufs|
    requires var pr, nx := bufs[c[j]].prev, bufs[c[j]].next;
      forall y :: 0 <= y < |bufs| ==> bufs'[y].prev == (if y == nx then pr else bufs[y].prev)
    requires 0 <= k < |c| - 1
    ensures var r := Drop(c, j); bufs'[r[k]].prev == (if k > 0 then r[k - 1] else -1)
  {
    var n := |c|;
    var r := Drop(c, j);
    assert ChainLinkAt(bufs, c, h, j);
    var k' := if k < j then k else k + 1;
    assert r[k] == c[k'];
    if k' == j + 1 {
      assert bufs'[c[k']].prev == bufs[c[j]].prev;
      if j > 0 {
        assert r[k - 1] == c[j - 1];
      }
    } else {
      assert j + 1 < n ==> c[k'] != c[j + 1];
      assert bufs'[c[k']].prev == bufs[c[k']].prev;
      assert ChainLinkAt(bufs, c, h, k');
      if k' > 0 {
        assert r[k - 1] == c[k' - 1];
      }
    }
  }

  /** Two buffer heads with the same device and block number hash alike. */
  lemma SameKey(a: BufferHead, b: BufferHead)
    requires a.dev == b.dev && a.blocknr == b.blocknr
    ensures Hashed(a) == Hashed(b) && KeyInRange(a) == KeyInRange(b)
    ensures KeyInRange(a) ==> BucketOf(a) == BucketOf(b)
  {
  }

  /** A chain none of whose buffers changed key or hash links stays well formed. */
  lemma ChainFrame(bufs: seq<BufferHead>, bufs': seq<BufferHead>, head: int, c: seq<int>, h: int)
    requires ChainOk(bufs, head, c, h) && |bufs'| == |bufs|
    requires forall k :: 0 <= k < |c| ==>
      bufs'[c[k]].dev == bufs[c[k]].dev && bufs'[c[k]].blocknr == bufs[c[k]].blocknr &&
      bufs'[c[k]].next == bufs[c[k]].next && bufs'[c[k]].prev == bufs[c[k]].prev
    ensures ChainOk(bufs', head, c, h)
  {
    forall k | 0 <= k < |c|
      ensures ChainLinkAt(bufs', c, h, k)
    {
      assert ChainLinkAt(bufs, c, h, k);
      SameKey(bufs'[c[k]], bufs[c[k]]);
    }
  }

  // ---------------------------------------------------------------------
  // remove_from_queues.

  /** A pool of at least two buffers whose ring names them all has a ring of
      at least two. */
  lemma RingTwo(p: PoolState)
    requires |p.bufs| >= 2 && RingOk(p.bufs, p.freeList, p.ring)
    ensures |p.ring| >= 2
  {
    assert 0 in p.ring && 1 in p.ring;
    assert p.ring[IndexOf(p.ring, 0)] != p.ring[IndexOf(p.ring, 1)];
  }

  /** What Unqueued does to each buffer: only link fields change, and only
      those of b's four neighbours. */
  lemma UnqueuedFields(p: PoolState, b: int)
    requires Queued(p, b)
    ensures var r, x := Unqueued(p, b), p.bufs[b];
      |r.bufs| == |p.bufs| &&
      forall y :: 0 <= y < |p.bufs| ==>
        LinksOnly(r.bufs[y], p.bufs[y]) &&
        r.bufs[y].next == (if y == x.prev then x.next else p.bufs[y].next) &&
        r.bufs[y].prev == (if y == x.next then x.prev else p.bufs[y].prev) &&
        r.bufs[y].nextFree == (if y == x.prevFree then x.nextFree else p.bufs[y].nextFree) &&
        r.bufs[y].prevFree == (if y == x.nextFree then x.prevFree else p.bufs[y].prevFree)
  {
    var x := p.bufs[b];
    var s := Relinked(p.bufs, x.prev, x.next);
    var r := RelinkedFree(s, x.prevFree, x.nextFree);
    forall y | 0 <= y < |p.bufs|
      ensures LinksOnly(r[y], p.bufs[y])
    {
      assert s[y] == p.bufs[y].(next := s[y].next, prev := s[y].prev);
    }
  }

  /** The neighbours of b are not b, and its chain neighbours hash like b. */
  lemma NeighbourFacts(p: PoolState, b: int)
    requires Inv(p) && 0 <= b < |p.bufs|
    ensures var x := p.bufs[b];
      LinksInRange(p.bufs, b) && KeyInRange(x) &&
      x.prev != b && x.next != b && x.prevFree != b && x.nextFree != b &&
      (x.prev != -1 ==> Hashed(x) && x.prev in p.chains[BucketOf(x)] && x.prev != x.next &&
                        Hashed(p.bufs[x.prev]) && KeyInRange(p.bufs[x.prev]) && BucketOf(p.bufs[x.prev]) == BucketOf(x)) &&
      (x.next != -1 ==> Hashed(x) && x.next in p.chains[BucketOf(x)] &&
                        Hashed(p.bufs[x.next]) && KeyInRange(p.bufs[x.next]) && BucketOf(p.bufs[x.next]) == BucketOf(x))
  {
    Placed(p, b);
    RingTwo(p);
    var i := IndexOf(p.ring, b);
    var m := |p.ring|;
    if i + 1 < m {
      assert p.ring[i + 1] != p.ring[i];
    } else {
      assert p.ring[0] != p.ring[i];
    }
    if i > 0 {
      assert p.ring[i - 1] != p.ring[i];
    } else {
      assert p.ring[m - 1] != p.ring[0];
    }
    var x := p.bufs[b];
    if Hashed(x) {
      var c := p.chains[BucketOf(x)];
      var j := IndexOf(c, b);
      assert ChainOk(p.bufs, p.hash[BucketOf(x)], c, BucketOf(x));
      if j > 0 {
        assert c[j - 1] != c[j];
        assert c[j - 1] in c;
        assert ChainLinkAt(p.bufs, c, BucketOf(x), j - 1);
      }
      if j + 1 < |c| {
        assert c[j + 1] != c[j];
        assert c[j + 1] in c;
        assert ChainLinkAt(p.bufs, c, BucketOf(x), j + 1);
        if j > 0 {
          assert c[j - 1] != c[j + 1];
        }
      }
    }
  }

  /** The ring after removal. */
  lemma UnqueuedRing(p: PoolState, b: int)
    requires Inv(p) && 0 <= b < |p.bufs|
    ensures Queued(p, b)
    ensures var r := Unqueued(p, b);
      Cycle(r.bufs, r.freeList, r.ring) && b !in r.ring &&
      (forall y :: 0 <= y < |p.bufs| && y != b ==> y in r.ring) &&
      r.ring == Drop(p.ring, IndexOf(p.ring, b))
  {
    Placed(p, b);
    RingTwo(p);
    UnqueuedFields(p, b);
    var r := Unqueued(p, b);
    var i := IndexOf(p.ring, b);
    assert i == 0 <==> p.freeList == b;
    CycleDrop(p.bufs, p.freeList, p.ring, i, r.bufs, r.freeList);
    DropMembers(p.ring, i);
  }

  /** The chain of bucket h after removal, when b was in it. */
  lemma UnqueuedOwnChain(p: PoolState, b: int)
    requires Inv(p) && 0 <= b < |p.bufs| && Hashed(p.bufs[b])
    ensures Queued(p, b)
    ensures var r, h := Unqueued(p, b), BucketOf(p.bufs[b]);
      ChainOk(r.bufs, r.hash[h], r.chains[h], h) && b !in r.chains[h] &&
      forall y :: y in p.chains[h] && y != b ==> y in r.chains[h]
  {
    Placed(p, b);
    UnqueuedFields(p, b);
    var r := Unqueued(p, b);
    var h := BucketOf(p.bufs[b]);
    var c := p.chains[h];
    assert ChainOk(p.bufs, p.hash[h], c, h);
    var j := IndexOf(c, b);
    assert p.hash[h] == b <==> j == 0;
    ChainDrop(p.bufs, p.hash[h], c, h, j, r.bufs, r.hash[h]);
    DropMembers(c, j);
  }

  /** Any other chain after removal: unchanged, and without b. */
  lemma UnqueuedOtherChain(p: PoolState, b: int, h: int)
    requires Inv(p) && 0 <= b < |p.bufs| && 0 <= h < NR_HASH
    requires !Hashed(p.bufs[b]) || h != BucketOf(p.bufs[b])
    ensures Queued(p, b)
    ensures var r := Unqueued(p, b);
      ChainOk(r.bufs, r.hash[h], r.chains[h], h) && b !in r.chains[h] && r.chains[h] == p.chains[h]
  {
    Placed(p, b);
    UnqueuedFields(p, b);
    NeighbourFacts(p, b);
    var r := Unqueued(p, b);
    var x := p.bufs[b];
    var c := p.chains[h];
    assert ChainOk(p.bufs, p.hash[h], c, h);
    forall k | 0 <= k < |c|
      ensures c[k] != x.prev && c[k] != x.next && c[k] != b
    {
      assert ChainLinkAt(p.bufs, c, h, k);
    }
    ChainFrame(p.bufs, r.bufs, p.hash[h], c, h);
  }

  /** The chains after removal. */
  lemma UnqueuedChains(p: PoolState, b: int)
    requires Inv(p) && 0 <= b < |p.bufs|
    ensures Queued(p, b)
    ensures var r := Unqueued(p, b);
      ChainsOk(r.bufs, r.hash, r.chains) && (forall h :: 0 <= h < NR_HASH ==> b !in r.chains[h]) &&
      forall y :: 0 <= y < |p.bufs| && y != b && Hashed(p.bufs[y]) ==> y in r.chains[BucketOf(p.bufs[y])]
  {
    Placed(p, b);
    var r := Unqueued(p, b);
    var x := p.bufs[b];
    forall h | 0 <= h < NR_HASH
      ensures ChainOk(r.bufs, r.hash[h], r.chains[h], h) && b !in r.chains[h]
      ensures forall y :: y in p.chains[h] && y != b ==> y in r.chains[h]
    {
      if Hashed(x) && h == BucketOf(x) {
        UnqueuedOwnChain(p, b);
      } else {
        UnqueuedOtherChain(p, b, h);
      }
    }
  }

  /** Relinking keeps keys unique. */
  lemma KeysUniqueLinks(a: seq<BufferHead>, c: seq<BufferHead>)
    requires |a| == |c| && KeysUnique(c)
    requires forall y :: 0 <= y < |c| ==> LinksOnly(a[y], c[y])
    ensures KeysUnique(a)
  {
    forall i, j | 0 <= i < |a| && 0 <= j < |a| && i != j
      ensures DiffKeys(a, i, j)
    {
      assert DiffKeys(c, i, j);
      SameKey(a[i], c[i]);
      SameKey(a[j], c[j]);
    }
  }

  /** After removal, buffer y (not b) is still complete. */
  lemma UnqueuedCompleteAt(p: PoolState, b: int, y: int)
    requires Inv(p) && 0 <= b < |p.bufs| && 0 <= y < |p.bufs| && y != b
    ensures Queued(p, b)
    ensures var r := Unqueued(p, b);
      KeyInRange(r.bufs[y]) && |r.bufs[y].data| == BLOCK_SIZE &&
      (Hashed(r.bufs[y]) ==> y in r.chains[BucketOf(r.bufs[y])]) &&
      (!Hashed(r.bufs[y]) ==> r.bufs[y].next == -1 && r.bufs[y].prev == -1)
  {
    Placed(p, b);
    var r := Unqueued(p, b);
    UnqueuedFields(p, b);
    NeighbourFacts(p, b);
    UnqueuedChains(p, b);
    SameKey(r.bufs[y], p.bufs[y]);
  }

  /** After removal every other buffer is still complete, and keys stay unique. */
  lemma UnqueuedComplete(p: PoolState, b: int)
    requires Inv(p) && 0 <= b < |p.bufs|
    ensures Queued(p, b)
    ensures var r := Unqueued(p, b);
      |r.chains| == NR_HASH && CompleteExcept(r.bufs, r.chains, b) && KeysUnique(r.bufs)
  {
    Placed(p, b);
    var r := Unqueued(p, b);
    UnqueuedFields(p, b);
    forall y | 0 <= y < |p.bufs| && y != b
      ensures KeyInRange(r.bufs[y]) && |r.bufs[y].data| == BLOCK_SIZE
      ensures Hashed(r.bufs[y]) ==> y in r.chains[BucketOf(r.bufs[y])]
      ensures !Hashed(r.bufs[y]) ==> r.bufs[y].next == -1 && r.bufs[y].prev == -1
    {
      UnqueuedCompleteAt(p, b, y);
    }
    KeysUniqueLinks(r.bufs, p.bufs);
  }

  /** remove_from_queues leaves b detached, only links changed, and b itself
      untouched. */
  lemma UnqueuedOk(p: PoolState, b: int)
    requires Inv(p) && 0 <= b < |p.bufs|
    ensures Queued(p, b)
    ensures var r := Unqueued(p, b);
      Detached(r, b) && |r.bufs| == |p.bufs| && r.bufs[b] == p.bufs[b] &&
      (forall y :: 0 <= y < |p.bufs| ==> LinksOnly(r.bufs[y], p.bufs[y])) &&
      r.ring == Drop(p.ring, IndexOf(p.ring, b))
  {
    Placed(p, b);
    var r := Unqueued(p, b);
    UnqueuedFields(p, b);
    NeighbourFacts(p, b);
    UnqueuedRing(p, b);
    UnqueuedChains(p, b);
    UnqueuedComplete(p, b);
    assert r.bufs[b] == p.bufs[b];
  }

  // ---------------------------------------------------------------------
  // A new key for a detached buffer.

  /** getblk gives the detached buffer its new key (and zeroed flags); the
      pool stays detached when no hashed buffer has that key. */
  lemma RekeyedDetached(p: PoolState, b: int, nb: BufferHead)
    requires Detached(p, b) && KeyInRange(nb) && |nb.data| == BLOCK_SIZE
    requires Hashed(nb) ==> Absent(p.bufs, nb.dev, nb.blocknr)
    ensures Detached(p.(bufs := p.bufs[b := nb]), b)
  {
    var bufs := p.bufs[b := nb];
    forall k | 0 <= k < |p.ring|
      ensures RingLinkAt(bufs, p.ring, k)
    {
      assert RingLinkAt(p.bufs, p.ring, k);
      assert p.ring[k] in p.ring;
    }
    forall h | 0 <= h < NR_HASH
      ensures ChainOk(bufs, p.hash[h], p.chains[h], h)
    {
      assert ChainOk(p.bufs, p.hash[h], p.chains[h], h);
      ChainFrame(p.bufs, bufs, p.hash[h], p.chains[h], h);
    }
    forall i, j | 0 <= i < |bufs| && 0 <= j < |bufs| && i != j
      ensures DiffKeys(bufs, i, j)
    {
      if i != b && j != b {
        assert DiffKeys(p.bufs, i, j);
      }
    }
  }

  // ---------------------------------------------------------------------
  // insert_into_queues.

  /** What Enqueued does to each buffer. */
  lemma EnqueuedFields(p: PoolState, b: int)
    requires Detached(p, b)
    ensures Insertable(p, b)
    ensures var r, x := Enqueued(p, b), p.bufs[b];
      var fl := p.freeList;
      var last := p.bufs[fl].prevFree;
      var head := if Hashed(x) then p.hash[BucketOf(x)] else -1;
      |r.bufs| == |p.bufs| && r.freeList == fl && r.ring == p.ring + [b] &&
      last == p.ring[|p.ring| - 1] &&
      (Hashed(x) ==> r.hash == p.hash[BucketOf(x) := b] && r.chains == p.chains[BucketOf(x) := [b] + p.chains[BucketOf(x)]]) &&
      (!Hashed(x) ==> r.hash == p.hash && r.chains == p.chains) &&
      r.bufs[b] == x.(nextFree := fl, prevFree := last, prev := -1, next := head) &&
      forall y :: 0 <= y < |p.bufs| && y != b ==>
        LinksOnly(r.bufs[y], p.bufs[y]) && r.bufs[y].next == p.bufs[y].next &&
        r.bufs[y].prev == (if y == head then b else p.bufs[y].prev) &&
        r.bufs[y].nextFree == (if y == last then b else p.bufs[y].nextFree) &&
        r.bufs[y].prevFree == (if y == fl then b else p.bufs[y].prevFree)
  {
    DetachedInsertable(p, b);
  }

  /** The ring links at position k after insertion. */
  lemma EnqueuedRingAt(p: PoolState, b: int, k: int)
    requires Detached(p, b) && 0 <= k <= |p.ring|
    ensures Insertable(p, b)
    ensures var r := Enqueued(p, b);
      0 <= (p.ring + [b])[k] < |r.bufs| && RingLinkAt(r.bufs, p.ring + [b], k)
  {
    EnqueuedFields(p, b);
    var ring := p.ring + [b];
    var m := |p.ring|;
    var fl := p.freeList;
    var last := p.bufs[fl].prevFree;
    if k < m {
      assert ring[k] == p.ring[k];
      assert RingLinkAt(p.bufs, p.ring, k);
      if k + 1 < m {
        assert ring[k + 1] == p.ring[k + 1] && p.ring[k] != last;
      }
      if k > 0 {
        assert ring[k - 1] == p.ring[k - 1] && p.ring[k] != fl;
      }
    }
  }

  /** The ring after insertion: one cycle through every buffer. */
  lemma EnqueuedRing(p: PoolState, b: int)
    requires Detached(p, b)
    ensures Insertable(p, b)
    ensures var r := Enqueued(p, b); RingOk(r.bufs, r.freeList, r.ring)
  {
    EnqueuedFields(p, b);
    var r := Enqueued(p, b);
    var ring := p.ring + [b];
    forall k | 0 <= k < |ring|
      ensures 0 <= ring[k] < |r.bufs| && RingLinkAt(r.bufs, ring, k)
    {
      EnqueuedRingAt(p, b, k);
    }
    forall i, j | 0 <= i < j < |ring|
      ensures ring[i] != ring[j]
    {
      if j < |p.ring| {
        assert ring[i] == p.ring[i] && ring[j] == p.ring[j];
      } else {
        assert ring[i] == p.ring[i] && p.ring[i] in p.ring;
      }
    }
    assert Cycle(r.bufs, r.freeList, r.ring);
    forall y | 0 <= y < |r.bufs|
      ensures y in r.ring
    {
      if y != b {
        assert y in p.ring;
      } else {
        assert ring[|p.ring|] == b;
      }
    }
  }

  /** The chains after insertion. */
  lemma EnqueuedChains(p: PoolState, b: int)
    requires Detached(p, b)
    ensures Insertable(p, b)
    ensures var r := Enqueued(p, b); ChainsOk(r.bufs, r.hash, r.chains)
  {
    EnqueuedFields(p, b);
    var r := Enqueued(p, b);
    var x := p.bufs[b];
    forall h | 0 <= h < NR_HASH
      ensures ChainOk(r.bufs, r.hash[h], r.chains[h], h)
    {
      if Hashed(x) && h == BucketOf(x) {
        EnqueuedOwnChain(p, b);
      } else {
        EnqueuedOtherChain(p, b, h);
      }
    }
  }

  lemma EnqueuedOwnChain(p: PoolState, b: int)
    requires Detached(p, b) && Hashed(p.bufs[b])
    ensures Insertable(p, b)
    ensures var r, h := Enqueued(p, b), BucketOf(p.bufs[b]); ChainOk(r.bufs, r.hash[h], r.chains[h], h)
  {
    EnqueuedFields(p, b);
    var r := Enqueued(p, b);
    var h := BucketOf(p.bufs[b]);
    var c := p.chains[h];
    assert ChainOk(p.bufs, p.hash[h], c, h);
    var c' := [b] + c;
    assert r.chains[h] == c';
    forall k | 0 <= k < |c'|
      ensures 0 <= c'[k] < |r.bufs| && ChainLinkAt(r.bufs, c', h, k)
    {
      EnqueuedOwnChainAt(p, b, k);
    }
    forall i, j | 0 <= i < j < |c'|
      ensures c'[i] != c'[j]
    {
      assert c'[j] == c[j - 1];
      if i > 0 {
        assert c'[i] == c[i - 1];
      } else {
        assert c[j - 1] in c;
      }
    }
  }

  /** Position k of b's chain after insertion. */
  lemma EnqueuedOwnChainAt(p: PoolState, b: int, k: int)
    requires Detached(p, b) && Hashed(p.bufs[b])
    requires 0 <= k <= |p.chains[BucketOf(p.bufs[b])]|
    ensures Insertable(p, b)
    ensures var r, h := Enqueued(p, b), BucketOf(p.bufs[b]);
      var c' := [b] + p.chains[h];
      0 <= c'[k] < |r.bufs| && ChainLinkAt(r.bufs, c', h, k)
  {
    EnqueuedFields(p, b);
    var r := Enqueued(p, b);
    var x := p.bufs[b];
    var h := BucketOf(x);
    var c := p.chains[h];
    assert ChainOk(p.bufs, p.hash[h], c, h);
    var c' := [b] + c;
    if k > 0 {
      assert c'[k] == c[k - 1] && c[k - 1] in c;
      assert ChainLinkAt(p.bufs, c, h, k - 1);
      SameKey(r.bufs[c[k - 1]], p.bufs[c[k - 1]]);
      if k > 1 {
        assert c[k - 1] != c[0];
        assert c'[k - 1] == c[k - 2];
      }
      if k < |c| {
        assert c'[k + 1] == c[k];
      }
    } else {
      SameKey(r.bufs[b], x);
      if |c| > 0 {
        assert c'[1] == c[0];
      }
    }
  }

  lemma EnqueuedOtherChain(p: PoolState, b: int, h: int)
    requires Detached(p, b) && 0 <= h < NR_HASH
    requires !Hashed(p.bufs[b]) || h != BucketOf(p.bufs[b])
    ensures Insertable(p, b)
    ensures var r := Enqueued(p, b); ChainOk(r.bufs, r.hash[h], r.chains[h], h) && r.chains[h] == p.chains[h]
  {
    EnqueuedFields(p, b);
    var r := Enqueued(p, b);
    var x := p.bufs[b];
    var head := if Hashed(x) then p.hash[BucketOf(x)] else -1;
    var c := p.chains[h];
    assert ChainOk(p.bufs, p.hash[h], c, h);
    if Hashed(p.bufs[b]) { HeadHashed(p, b); }
    forall k | 0 <= k < |c|
      ensures c[k] != b && c[k] != head
    {
      assert c[k] in c;
      assert ChainLinkAt(p.bufs, c, h, k);
    }
    ChainFrame(p.bufs, r.bufs, p.hash[h], c, h);
  }

  /** The old head of b's bucket, if any, is a hashed buffer of that bucket. */
  lemma HeadHashed(p: PoolState, b: int)
    requires Detached(p, b) && Hashed(p.bufs[b])
    ensures var h := BucketOf(p.bufs[b]); var head := p.hash[h];
      head != -1 ==> 0 <= head < |p.bufs| && Hashed(p.bufs[head]) && KeyInRange(p.bufs[head]) && BucketOf(p.bufs[head]) == h
  {
    var h := BucketOf(p.bufs[b]);
    assert ChainOk(p.bufs, p.hash[h], p.chains[h], h);
    if p.hash[h] != -1 {
      assert ChainLinkAt(p.bufs, p.chains[h], h, 0);
    }
  }

  /** After insertion, buffer y is complete. */
  lemma EnqueuedCompleteAt(p: PoolState, b: int, y: int)
    requires Detached(p, b) && 0 <= y < |p.bufs|
    ensures Insertable(p, b)
    ensures var r := Enqueued(p, b);
      KeyInRange(r.bufs[y]) && |r.bufs[y].data| == BLOCK_SIZE &&
      (Hashed(r.bufs[y]) ==> y in r.chains[BucketOf(r.bufs[y])]) &&
      (!Hashed(r.bufs[y]) ==> r.bufs[y].next == -1 && r.bufs[y].prev == -1)
  {
    EnqueuedFields(p, b);
    var r := Enqueued(p, b);
    var x := p.bufs[b];
    if Hashed(x) { HeadHashed(p, b); }
    SameKey(r.bufs[y], p.bufs[y]);
    if y == b && Hashed(x) {
      assert r.chains[BucketOf(x)][0] == b;
    }
  }

  /** insert_into_queues on a detached buffer restores the invariant, with
      b at the tail of the free ring and at the head of its bucket. */
  lemma EnqueuedOk(p: PoolState, b: int)
    requires Detached(p, b)
    ensures Insertable(p, b)
    ensures var r := Enqueued(p, b);
      Inv(r) && r.ring == p.ring + [b] && r.freeList == p.freeList &&
      (Hashed(p.bufs[b]) ==> r.hash[BucketOf(p.bufs[b])] == b &&
                             r.chains[BucketOf(p.bufs[b])] == [b] + p.chains[BucketOf(p.bufs[b])]) &&
      (forall y :: 0 <= y < |p.bufs| ==> LinksOnly(r.bufs[y], p.bufs[y]))
  {
    EnqueuedFields(p, b);
    EnqueuedRing(p, b);
    EnqueuedChains(p, b);
    var r := Enqueued(p, b);
    forall y | 0 <= y < |r.bufs|
      ensures KeyInRange(r.bufs[y]) && |r.bufs[y].data| == BLOCK_SIZE
      ensures Hashed(r.bufs[y]) ==> y in r.chains[BucketOf(r.bufs[y])]
      ensures !Hashed(r.bufs[y]) ==> r.bufs[y].next == -1 && r.bufs[y].prev == -1
    {
      EnqueuedCompleteAt(p, b, y);
    }
    assert Complete(r.bufs, r.chains);
    KeysUniqueLinks(r.bufs, p.bufs);
  }

  // ---------------------------------------------------------------------
  // getblk's claim of a victim buffer.

  /** The first stores of the claim: one reference, clean, not up to date. */
  function Flagged(p: PoolState, b: int): PoolState
    requires 0 <= b < |p.bufs|
  {
    p.(bufs := p.bufs[b := p.bufs[b].(count := 1, dirt := false, uptodate := false)])
  }

  /** The stores between the two relinkings: b gets key (dev, block). */
  function Rekeyed(p: PoolState, b: int, dev: int, block: int): PoolState
    requires 0 <= b < |p.bufs|
  {
    p.(bufs := p.bufs[b := p.bufs[b].(dev := dev, blocknr := block)])
  }

  /** When getblk may claim b for (dev, block): a well-formed pool in which
      no hashed buffer already carries that key. */
  predicate ClaimReady(p: PoolState, b: int, dev: int, block: int)
  {
    Inv(p) && 0 <= b < |p.bufs| && 0 <= dev < 0x1_0000 && 0 <= block < 0x8000_0000 &&
    Absent(p.bufs, dev, block)
  }

  /** Each stage of the claim meets what the next one needs. */
  lemma ClaimStages(p: PoolState, b: int, dev: int, block: int)
    requires ClaimReady(p, b, dev, block)
    ensures Inv(Flagged(p, b)) && Queued(Flagged(p, b), b)
    ensures Absent(Unqueued(Flagged(p, b), b).bufs, dev, block)
    ensures Detached(Rekeyed(Unqueued(Flagged(p, b), b), b, dev, block), b)
  {
    var p1 := Flagged(p, b);
    assert SameShape(p1.bufs, p.bufs) by {
      assert p1.bufs[b] == p.bufs[b].(uptodate := false, dirt := false, lock := p.bufs[b].lock, count := 1);
    }
    InvSameShape(p, p1.bufs);
    assert p1 == p.(bufs := p1.bufs);
    UnqueuedOk(p1, b);
    var r1 := Unqueued(p1, b);
    var nb := r1.bufs[b].(dev := dev, blocknr := block);
    forall y | 0 <= y < |r1.bufs|
      ensures !(Hashed(r1.bufs[y]) && r1.bufs[y].dev == dev && r1.bufs[y].blocknr == block)
    {
      assert LinksOnly(r1.bufs[y], p1.bufs[y]);
    }
    RekeyedDetached(r1, b, nb);
    assert Rekeyed(r1, b, dev, block) == r1.(bufs := r1.bufs[b := nb]);
  }

  /** getblk's claim of b for (dev, block), from the flag stores through
      remove_from_queues, the key stores and insert_into_queues. */
  ghost function Claimed(p: PoolState, b: int, dev: int, block: int): PoolState
    requires ClaimReady(p, b, dev, block)
  {
    ClaimStages(p, b, dev, block);
    DetachedInsertable(Rekeyed(Unqueued(Flagged(p, b), b), b, dev, block), b);
    Enqueued(Rekeyed(Unqueued(Flagged(p, b), b), b, dev, block), b)
  }

  /** The claim keeps the pool well formed; b now has key (dev, block), one
      reference and clean, stale contents, sits at the tail of the free ring
      (it is the most recently used), and heads the chain of its key when
      that is hashed; every other buffer changed only in its links. */
  lemma ClaimedOk(p: PoolState, b: int, dev: int, block: int)
    requires ClaimReady(p, b, dev, block)
    ensures var r := Claimed(p, b, dev, block);
      Inv(r) && |r.bufs| == |p.bufs| &&
      LinksOnly(r.bufs[b], p.bufs[b].(dev := dev, blocknr := block, count := 1, dirt := false, uptodate := false)) &&
      (forall y :: 0 <= y < |p.bufs| && y != b ==> LinksOnly(r.bufs[y], p.bufs[y])) &&
      r.ring == Drop(p.ring, IndexOf(p.ring, b)) + [b] &&
      (dev != 0 ==> r.hash[HashFn(dev, block)] == b)
  {
    ClaimStages(p, b, dev, block);
    var p1 := Flagged(p, b);
    UnqueuedOk(p1, b);
    var r1 := Unqueued(p1, b);
    var p2 := Rekeyed(r1, b, dev, block);
    EnqueuedOk(p2, b);
    var r := Claimed(p, b, dev, block);
    assert r == Enqueued(p2, b);
    forall y | 0 <= y < |p.bufs| && y != b
      ensures LinksOnly(r.bufs[y], p.bufs[y])
    {
      assert LinksOnly(r.bufs[y], p2.bufs[y]) && LinksOnly(r1.bufs[y], p1.bufs[y]);
    }
    assert LinksOnly(r.bufs[b], p2.bufs[b]);
  }

  /** The claim of an unused buffer gives the claiming task one more
      reference, to b, and keeps every data address and the key of every
      buffer the task holds. */
  lemma ClaimOwns(p: PoolState, b: int, dev: int, block: int, held: multiset<int>)
    requires ClaimReady(p, b, dev, block) && Owns(p.bufs, held) && p.bufs[b].count == 0
    ensures var r := Claimed(p, b, dev, block);
      r.bufs[b].dev == dev && r.bufs[b].blocknr == block && r.bufs[b].lock == p.bufs[b].lock &&
      r.bufs[b].count == 1 && !r.bufs[b].dirt && !r.bufs[b].uptodate &&
      Owns(r.bufs, held + multiset{b}) && Owns(r.bufs, held) && Keeps(p.bufs, r.bufs, held)
  {
    ClaimedOk(p, b, dev, block);
    var r := Claimed(p, b, dev, block);
    forall y | y in held + multiset{b}
      ensures 0 <= y < |r.bufs| && r.bufs[y].count >= (held + multiset{b})[y]
    {
      if y != b {
        assert LinksOnly(r.bufs[y], p.bufs[y]);
      }
    }
    forall y | y in held
      ensures 0 <= y < |r.bufs| && r.bufs[y].count >= held[y]
    {
      assert y in held + multiset{b};
    }
    forall y | 0 <= y < |p.bufs|
      ensures r.bufs[y].addr == p.bufs[y].addr &&
              (held[y] > 0 ==> r.bufs[y].dev == p.bufs[y].dev && r.bufs[y].blocknr == p.bufs[y].blocknr)
    {
      if y != b {
        assert LinksOnly(r.bufs[y], p.bufs[y]);
      }
    }
  }
}
