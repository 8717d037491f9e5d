/** The request array, the per-major pending lists and the submission path of
    kernel/blk_drv/ll_rw_blk.c, with end_request and INIT_REQUEST of
    kernel/blk_drv/blk.h. Requests and buffers are named by their indices in
    `request` and in the buffer pool. */
module LlRwBlk {
  import opened FsDefs
  import opened Blk
  import opened Util
  import opened BufferState
  import opened Interleave

  /** The request make_request builds for buffer `bh` (head `b`) and command `cmd`. */
  function Filled(b: BufferHead, bh: int, cmd: int): Request
  {
    Request(b.dev, cmd, 0, b.blocknr * 2, 2, b.addr, bh, -1)
  }

  /** INIT_REQUEST's verdicts. */
  datatype InitResult = NoRequest | Proceed | ListDestroyed | NotLocked

  /** A slot in use: a 16-bit device, a READ or WRITE command, a buffer among n. */
  predicate SlotOk(r: Request, n: int)
  {
    0 <= r.dev < 0x1_0000 && (r.cmd == READ || r.cmd == WRITE) && 0 <= r.bh < n
  }

  /** Major m's list q: it starts at current_request, is linked through
      `next` and ends in NULL, has no repeated slot, and every entry is a slot
      in use for a device of that major. */
  predicate ListOk(rs: seq<Request>, d: BlkDev, q: seq<int>, m: int, n: int)
    requires |rs| == NR_REQUEST
  {
    d.current == (if q == [] then -1 else q[0]) &&
    (q != [] ==> d.hasRequestFn) &&
    (forall k :: 0 <= k < |q| ==> 0 <= q[k] < NR_REQUEST && SlotOk(rs[q[k]], n) && Major(rs[q[k]].dev) == m) &&
    (forall i, j :: 0 <= i < j < |q| ==> q[i] != q[j]) &&
    (forall k :: 0 <= k < |q| - 1 ==> rs[q[k]].next == q[k + 1]) &&
    (q != [] ==> rs[q[|q| - 1]].next == -1)
  }

  /** Every major's list is well formed. */
  predicate ListsOk(rs: seq<Request>, ds: seq<BlkDev>, qs: seq<seq<int>>, n: int)
    requires |rs| == NR_REQUEST && |ds| == NR_BLK_DEV && |qs| == NR_BLK_DEV
  {
    forall m :: 0 <= m < NR_BLK_DEV ==> ListOk(rs, ds[m], qs[m], m, n)
  }

  /** Every slot in use other than `pending` is on the list of its major. */
  predicate AllQueued(rs: seq<Request>, qs: seq<seq<int>>, pending: int)
    requires |rs| == NR_REQUEST && |qs| == NR_BLK_DEV
  {
    forall s :: 0 <= s < NR_REQUEST && s != pending && rs[s].dev >= 0 ==>
      Major(rs[s].dev) < NR_BLK_DEV && s in qs[Major(rs[s].dev)]
  }

  /** The pending slot (if any) is in use and on no list. */
  predicate PendingOk(rs: seq<Request>, qs: seq<seq<int>>, n: int, pending: int)
    requires |rs| == NR_REQUEST && |qs| == NR_BLK_DEV
  {
    pending != -1 ==> 0 <= pending < NR_REQUEST && SlotOk(rs[pending], n) &&
                      forall m :: 0 <= m < NR_BLK_DEV ==> pending !in qs[m]
  }

  /** Every slot in use holds a locked buffer. */
  predicate HeldLocked(rs: seq<Request>, bufs: seq<BufferHead>)
    requires |rs| == NR_REQUEST
  {
    forall s :: 0 <= s < NR_REQUEST && rs[s].dev >= 0 ==> 0 <= rs[s].bh < |bufs| && bufs[rs[s].bh].lock
  }

  /** No two slots in use hold the same buffer. */
  predicate DistinctBh(rs: seq<Request>)
    requires |rs| == NR_REQUEST
  {
    forall s, t :: 0 <= s < t < NR_REQUEST && rs[s].dev >= 0 && rs[t].dev >= 0 ==> rs[s].bh != rs[t].bh
  }

  /** The queue invariant, except that slot `pending` (-1 for none) may be in
      use without being queued yet. It is stated as one equation so that a
      caller establishes it as a single fact rather than part by part. */
  predicate QInv(rs: seq<Request>, ds: seq<BlkDev>, qs: seq<seq<int>>, bufs: seq<BufferHead>, pending: int)
  {
    QParts(rs, ds, qs, bufs, pending) == true
  }

  predicate QParts(rs: seq<Request>, ds: seq<BlkDev>, qs: seq<seq<int>>, bufs: seq<BufferHead>, pending: int)
  {
    |rs| == NR_REQUEST && |ds| == NR_BLK_DEV && |qs| == NR_BLK_DEV &&
    ListsOk(rs, ds, qs, |bufs|) && AllQueued(rs, qs, pending) && PendingOk(rs, qs, |bufs|, pending) &&
    HeldLocked(rs, bufs) && DistinctBh(rs)
  }

  /** The requests a list names, in list order, link fields erased. */
  function Entries(rs: seq<Request>, q: seq<int>): seq<Request>
  {
    seq(|q|, k requires 0 <= k < |q| => if 0 <= q[k] < |rs| then rs[q[k]].(next := -1) else FreeSlot)
  }

  /** The request array after add_request splices slot s in behind slot t. */
  function Spliced(rs: seq<Request>, s: int, t: int): seq<Request>
    requires 0 <= s < |rs| && 0 <= t < |rs|
  {
    rs[s := rs[s].(next := rs[t].next)][t := rs[t].(next := s)]
  }

  /** The request array after add_request clears the link of slot s. */
  function Unlinked(rs: seq<Request>, s: int): seq<Request>
    requires 0 <= s < |rs|
  {
    rs[s := rs[s].(next := -1)]
  }

  /** The buffer pool after add_request clears the dirty flag of buffer b. */
  function Cleaned(bufs: seq<BufferHead>, b: int): seq<BufferHead>
    requires 0 <= b < |bufs|
  {
    bufs[b := bufs[b].(dirt := false)]
  }

  /** The facts about major m's current request that end_request and
      INIT_REQUEST rely on. */
  lemma HeadFacts(rs: seq<Request>, ds: seq<BlkDev>, qs: seq<seq<int>>, bufs: seq<BufferHead>, m: int)
    requires QInv(rs, ds, qs, bufs, -1) && 0 <= m < NR_BLK_DEV && qs[m] != []
    ensures (var c := ds[m].current;
             c == qs[m][0] && 0 <= c < NR_REQUEST && SlotOk(rs[c], |bufs|) && Major(rs[c].dev) == m &&
             bufs[rs[c].bh].lock && rs[c].next == (if |qs[m]| > 1 then qs[m][1] else -1))
  {
    assert ListOk(rs, ds[m], qs[m], m, |bufs|);
  }

  /** Slot changes that keep every slot's device and buffer keep the lock and
      sharing parts of the invariant. */
  lemma SameUse(rs: seq<Request>, rs': seq<Request>, bufs: seq<BufferHead>)
    requires |rs| == NR_REQUEST && |rs'| == NR_REQUEST && HeldLocked(rs, bufs) && DistinctBh(rs)
    requires forall u :: 0 <= u < NR_REQUEST ==> rs'[u].dev == rs[u].dev && rs'[u].bh == rs[u].bh
    ensures HeldLocked(rs', bufs) && DistinctBh(rs')
  {
  }

  /** The lists after end_request on major m drop its head. */
  lemma RetireLists(rs: seq<Request>, ds: seq<BlkDev>, qs: seq<seq<int>>, n: int, m: int)
    requires |rs| == NR_REQUEST && |ds| == NR_BLK_DEV && |qs| == NR_BLK_DEV && ListsOk(rs, ds, qs, n)
    requires 0 <= m < NR_BLK_DEV && qs[m] != []
    ensures (var c := qs[m][0];
             0 <= c < NR_REQUEST &&
             ListsOk(rs[c := rs[c].(dev := -1)], ds[m := ds[m].(current := rs[c].next)], qs[m := qs[m][1..]], n))
  {
    var q := qs[m];
    assert ListOk(rs, ds[m], q, m, n);
    var c := q[0];
    var rs', ds', qs' := rs[c := rs[c].(dev := -1)], ds[m := ds[m].(current := rs[c].next)], qs[m := q[1..]];
    RetireHead(rs, ds[m], q, m, n);
    forall m' | 0 <= m' < NR_BLK_DEV && m' != m
      ensures ListOk(rs', ds'[m'], qs'[m'], m', n)
    {
      assert ListOk(rs, ds[m'], qs[m'], m', n);
      assert c !in qs[m'];
      ListFrame(rs, rs', ds[m'], qs[m'], m', n);
    }
  }

  /** Major m's list without its head, once the head's slot is freed. */
  lemma RetireHead(rs: seq<Request>, d: BlkDev, q: seq<int>, m: int, n: int)
    requires |rs| == NR_REQUEST && ListOk(rs, d, q, m, n) && q != []
    ensures (var c := q[0];
             0 <= c < NR_REQUEST && ListOk(rs[c := rs[c].(dev := -1)], d.(current := rs[c].next), q[1..], m, n))
  {
    var c := q[0];
    var rs' := rs[c := rs[c].(dev := -1)];
    assert forall k :: 0 <= k < |q| - 1 ==> q[1..][k] == q[k + 1] && q[k + 1] != c;
    assert forall k :: 1 <= k < |q| ==> rs'[q[k]] == rs[q[k]];
  }

  /** After end_request every slot still in use is still queued. */
  lemma RetireQueued(rs: seq<Request>, qs: seq<seq<int>>, m: int)
    requires |rs| == NR_REQUEST && |qs| == NR_BLK_DEV && AllQueued(rs, qs, -1)
    requires 0 <= m < NR_BLK_DEV && qs[m] != [] && 0 <= qs[m][0] < NR_REQUEST
    ensures (var c := qs[m][0]; AllQueued(rs[c := rs[c].(dev := -1)], qs[m := qs[m][1..]], -1))
  {
    var q := qs[m];
    var c := q[0];
    var rs', qs' := rs[c := rs[c].(dev := -1)], qs[m := q[1..]];
    forall u | 0 <= u < NR_REQUEST && rs'[u].dev >= 0
      ensures Major(rs'[u].dev) < NR_BLK_DEV && u in qs'[Major(rs'[u].dev)]
    {
      assert u != c && rs'[u] == rs[u];
      if Major(rs[u].dev) == m {
        assert u in q && u != q[0];
        assert u in q[1..];
      }
    }
  }

  /** After end_request every slot in use still holds a locked buffer no other holds. */
  lemma RetireLocked(rs: seq<Request>, bufs: seq<BufferHead>, c: int, ok: bool)
    requires |rs| == NR_REQUEST && HeldLocked(rs, bufs) && DistinctBh(rs)
    requires 0 <= c < NR_REQUEST && rs[c].dev >= 0
    ensures 0 <= rs[c].bh < |bufs|
    ensures (var rs' := rs[c := rs[c].(dev := -1)];
             HeldLocked(rs', bufs[rs[c].bh := bufs[rs[c].bh].(uptodate := ok, lock := false)]) && DistinctBh(rs'))
  {
    var rs' := rs[c := rs[c].(dev := -1)];
    var bufs' := bufs[rs[c].bh := bufs[rs[c].bh].(uptodate := ok, lock := false)];
    forall u | 0 <= u < NR_REQUEST && rs'[u].dev >= 0
      ensures 0 <= rs'[u].bh < |bufs'| && bufs'[rs'[u].bh].lock
    {
      assert u != c && rs'[u] == rs[u];
      if u < c {
        assert rs[u].bh != rs[c].bh;
      } else {
        assert rs[c].bh != rs[u].bh;
      }
    }
  }

  /** The invariant after end_request on major m. */
  lemma RetireKeeps(rs: seq<Request>, ds: seq<BlkDev>, qs: seq<seq<int>>, bufs: seq<BufferHead>, m: int, ok: bool)
    requires QInv(rs, ds, qs, bufs, -1) && 0 <= m < NR_BLK_DEV && qs[m] != []
    ensures (var c := qs[m][0];
             0 <= c < NR_REQUEST && 0 <= rs[c].bh < |bufs| &&
             QInv(rs[c := rs[c].(dev := -1)], ds[m := ds[m].(current := rs[c].next)], qs[m := qs[m][1..]],
                  bufs[rs[c].bh := bufs[rs[c].bh].(uptodate := ok, lock := false)], -1))
  {
    HeadFacts(rs, ds, qs, bufs, m);
    var c := qs[m][0];
    var bufs' := bufs[rs[c].bh := bufs[rs[c].bh].(uptodate := ok, lock := false)];
    RetireLists(rs, ds, qs, |bufs|, m);
    RetireQueued(rs, qs, m);
    RetireLocked(rs, bufs, c, ok);
    assert |bufs'| == |bufs|;
  }

  /** Changing buffers other than their locks, or unlocking buffers no slot
      holds, keeps the invariant. */
  lemma LocksKeep(rs: seq<Request>, ds: seq<BlkDev>, qs: seq<seq<int>>, bufs: seq<BufferHead>,
                  bufs': seq<BufferHead>, pending: int)
    requires QInv(rs, ds, qs, bufs, pending) && |bufs'| == |bufs|
    requires forall s :: 0 <= s < NR_REQUEST && rs[s].dev >= 0 ==> bufs'[rs[s].bh].lock
    ensures QInv(rs, ds, qs, bufs', pending)
  {
  }

  /** A pool with the same lock flags keeps the invariant. */
  lemma LocksSame(rs: seq<Request>, ds: seq<BlkDev>, qs: seq<seq<int>>, bufs: seq<BufferHead>,
                  bufs': seq<BufferHead>, pending: int)
    requires QInv(rs, ds, qs, bufs, pending) && |bufs'| == |bufs|
    requires forall b :: 0 <= b < |bufs| ==> bufs'[b].lock == bufs[b].lock
    ensures QInv(rs, ds, qs, bufs', pending)
  {
    assert HeldLocked(rs, bufs);
    LocksKeep(rs, ds, qs, bufs, bufs', pending);
  }

  /** Filling the free slot s for a locked buffer that no slot holds. */
  lemma FillKeeps(rs: seq<Request>, ds: seq<BlkDev>, qs: seq<seq<int>>, bufs: seq<BufferHead>, s: int, r: Request)
    requires QInv(rs, ds, qs, bufs, -1) && 0 <= s < NR_REQUEST && rs[s].dev < 0
    requires SlotOk(r, |bufs|) && bufs[r.bh].lock
    requires forall t :: 0 <= t < NR_REQUEST && rs[t].dev >= 0 ==> rs[t].bh != r.bh
    ensures QInv(rs[s := r], ds, qs, bufs, s)
  {
    var rs' := rs[s := r];
    forall m | 0 <= m < NR_BLK_DEV
      ensures ListOk(rs', ds[m], qs[m], m, |bufs|) && s !in qs[m]
    {
      assert ListOk(rs, ds[m], qs[m], m, |bufs|);
    }
  }

  /** Registering a request function keeps the invariant. */
  lemma RegisterKeeps(rs: seq<Request>, ds: seq<BlkDev>, qs: seq<seq<int>>, bufs: seq<BufferHead>, m: int)
    requires QInv(rs, ds, qs, bufs, -1) && 0 <= m < NR_BLK_DEV
    ensures QInv(rs, ds[m := ds[m].(hasRequestFn := true)], qs, bufs, -1)
  {
    forall m' | 0 <= m' < NR_BLK_DEV
      ensures ListOk(rs, ds[m := ds[m].(hasRequestFn := true)][m'], qs[m'], m', |bufs|)
    {
      assert ListOk(rs, ds[m'], qs[m'], m', |bufs|);
    }
  }

  /** Major m's list does not change when only slots outside it change. */
  lemma ListFrame(rs: seq<Request>, rs': seq<Request>, d: BlkDev, q: seq<int>, m: int, n: int)
    requires |rs| == NR_REQUEST && |rs'| == NR_REQUEST && ListOk(rs, d, q, m, n)
    requires forall k :: 0 <= k < |q| ==> rs'[q[k]] == rs[q[k]]
    ensures ListOk(rs', d, q, m, n)
  {
  }

  /** The lists after add_request on an empty list: major m's is [s]. */
  lemma FirstLists(rs: seq<Request>, ds: seq<BlkDev>, qs: seq<seq<int>>, n: int, m: int, s: int)
    requires |rs| == NR_REQUEST && |ds| == NR_BLK_DEV && |qs| == NR_BLK_DEV && ListsOk(rs, ds, qs, n)
    requires PendingOk(rs, qs, n, s) && 0 <= s < NR_REQUEST && 0 <= m < NR_BLK_DEV
    requires Major(rs[s].dev) == m && ds[m].hasRequestFn && qs[m] == []
    ensures ListsOk(rs[s := rs[s].(next := -1)], ds[m := ds[m].(current := s)], qs[m := [s]], n)
  {
    var rs', ds', qs' := rs[s := rs[s].(next := -1)], ds[m := ds[m].(current := s)], qs[m := [s]];
    forall m' | 0 <= m' < NR_BLK_DEV
      ensures ListOk(rs', ds'[m'], qs'[m'], m', n)
    {
      if m' != m {
        assert ListOk(rs, ds[m'], qs[m'], m', n);
        ListFrame(rs, rs', ds[m'], qs[m'], m', n);
      }
    }
  }

  /** After add_request on an empty list every slot in use is queued. */
  lemma FirstQueued(rs: seq<Request>, qs: seq<seq<int>>, m: int, s: int)
    requires |rs| == NR_REQUEST && |qs| == NR_BLK_DEV && AllQueued(rs, qs, s)
    requires 0 <= s < NR_REQUEST && 0 <= m < NR_BLK_DEV && Major(rs[s].dev) == m && qs[m] == []
    ensures AllQueued(rs[s := rs[s].(next := -1)], qs[m := [s]], -1)
  {
    var rs', qs' := rs[s := rs[s].(next := -1)], qs[m := [s]];
    forall t | 0 <= t < NR_REQUEST && rs'[t].dev >= 0
      ensures Major(rs'[t].dev) < NR_BLK_DEV && t in qs'[Major(rs'[t].dev)]
    {
      if t != s {
        assert rs'[t] == rs[t];
        assert Major(rs[t].dev) != m;
      }
    }
  }

  /** add_request on an empty list: the pending slot becomes the list. */
  lemma FirstKeeps(rs: seq<Request>, ds: seq<BlkDev>, qs: seq<seq<int>>, bufs: seq<BufferHead>, m: int, s: int)
    requires QInv(rs, ds, qs, bufs, s) && 0 <= s < NR_REQUEST && 0 <= m < NR_BLK_DEV
    requires Major(rs[s].dev) == m && ds[m].hasRequestFn && qs[m] == []
    ensures QInv(rs[s := rs[s].(next := -1)], ds[m := ds[m].(current := s)], qs[m := [s]], bufs, -1)
  {
    FirstLists(rs, ds, qs, |bufs|, m, s);
    FirstQueued(rs, qs, m, s);
    SameUse(rs, rs[s := rs[s].(next := -1)], bufs);
  }

  /** Splicing changes link fields only. */
  lemma SplicedFields(rs: seq<Request>, s: int, t: int)
    requires 0 <= s < |rs| && 0 <= t < |rs|
    ensures |Spliced(rs, s, t)| == |rs|
    ensures forall u :: 0 <= u < |rs| ==> Spliced(rs, s, t)[u].(next := -1) == rs[u].(next := -1)
  {
  }

  /** Major m's list after slot s is spliced in behind position i. */
  lemma SpliceList(rs: seq<Request>, d: BlkDev, q: seq<int>, m: int, n: int, s: int, i: int)
    requires |rs| == NR_REQUEST && ListOk(rs, d, q, m, n) && 0 <= i < |q|
    requires 0 <= s < NR_REQUEST && s !in q && SlotOk(rs[s], n) && Major(rs[s].dev) == m
    ensures ListOk(Spliced(rs, s, q[i]), d, q[..i + 1] + [s] + q[i + 1..], m, n)
  {
    var rs' := Spliced(rs, s, q[i]);
    var q' := q[..i + 1] + [s] + q[i + 1..];
    InsertedAt(q, s, i);
    SpliceLinks(rs, q, s, i);
    SpliceSlots(rs, q, m, n, s, i);
  }

  /** Every entry of the spliced list is a slot in use for major m. */
  lemma SpliceSlots(rs: seq<Request>, q: seq<int>, m: int, n: int, s: int, i: int)
    requires |rs| == NR_REQUEST && 0 <= i < |q| && 0 <= s < NR_REQUEST && SlotOk(rs[s], n) && Major(rs[s].dev) == m
    requires forall k :: 0 <= k < |q| ==> 0 <= q[k] < NR_REQUEST && SlotOk(rs[q[k]], n) && Major(rs[q[k]].dev) == m
    ensures (var rs', q' := Spliced(rs, s, q[i]), q[..i + 1] + [s] + q[i + 1..];
             forall k :: 0 <= k < |q'| ==> 0 <= q'[k] < NR_REQUEST && SlotOk(rs'[q'[k]], n) && Major(rs'[q'[k]].dev) == m)
  {
    var rs', q' := Spliced(rs, s, q[i]), q[..i + 1] + [s] + q[i + 1..];
    SplicedFields(rs, s, q[i]);
    InsertedAt(q, s, i);
    forall k | 0 <= k < |q'|
      ensures 0 <= q'[k] < NR_REQUEST && SlotOk(rs'[q'[k]], n) && Major(rs'[q'[k]].dev) == m
    {
      assert rs'[q'[k]].(next := -1) == rs[q'[k]].(next := -1);
      if k > i + 1 {
        assert q'[k] == q[k - 1];
      }
    }
  }

  /** The positions of q[..i+1] + [s] + q[i+1..]: s at i+1, the rest in order,
      and no repeat when q has none and lacks s. */
  lemma InsertedAt(q: seq<int>, s: int, i: int)
    requires 0 <= i < |q|
    ensures (var q' := q[..i + 1] + [s] + q[i + 1..];
             |q'| == |q| + 1 && q'[0] == q[0] && q'[i + 1] == s &&
             (forall k :: 0 <= k <= i ==> q'[k] == q[k]) &&
             (forall k :: i + 1 < k < |q'| ==> q'[k] == q[k - 1]) &&
             ((forall a, c :: 0 <= a < c < |q| ==> q[a] != q[c]) && s !in q ==>
                forall a, c :: 0 <= a < c < |q'| ==> q'[a] != q'[c]))
  {
    var q' := q[..i + 1] + [s] + q[i + 1..];
    if (forall a, c :: 0 <= a < c < |q| ==> q[a] != q[c]) && s !in q {
      forall a, c | 0 <= a < c < |q'|
        ensures q'[a] != q'[c]
      {
        if a <= i && c > i + 1 {
          assert q'[a] == q[a] && q'[c] == q[c - 1];
        } else if a > i + 1 {
          assert q'[a] == q[a - 1] && q'[c] == q[c - 1];
        }
      }
    }
  }

  /** The links after the splice follow q[..i+1] + [s] + q[i+1..] and end in NULL. */
  lemma SpliceLinks(rs: seq<Request>, q: seq<int>, s: int, i: int)
    requires |rs| == NR_REQUEST && 0 <= i < |q| && 0 <= s < NR_REQUEST && s !in q
    requires forall k :: 0 <= k < |q| ==> 0 <= q[k] < NR_REQUEST
    requires forall a, c :: 0 <= a < c < |q| ==> q[a] != q[c]
    requires forall k :: 0 <= k < |q| - 1 ==> rs[q[k]].next == q[k + 1]
    requires rs[q[|q| - 1]].next == -1
    ensures (var rs', q' := Spliced(rs, s, q[i]), q[..i + 1] + [s] + q[i + 1..];
             (forall k :: 0 <= k < |q'| - 1 ==> rs'[q'[k]].next == q'[k + 1]) && rs'[q'[|q'| - 1]].next == -1)
  {
    var rs' := Spliced(rs, s, q[i]);
    var q' := q[..i + 1] + [s] + q[i + 1..];
    InsertedAt(q, s, i);
    forall k | 0 <= k < |q'| - 1
      ensures rs'[q'[k]].next == q'[k + 1]
    {
      if k < i {
        assert q[k] != q[i];
      } else if k > i + 1 {
        assert q[k - 1] != q[i];
      }
    }
    if i + 1 < |q| {
      assert q[|q| - 1] != q[i];
    }
  }

  /** The lists after the splice: major m's gains slot s, the others are untouched. */
  lemma SpliceLists(rs: seq<Request>, ds: seq<BlkDev>, qs: seq<seq<int>>, n: int, m: int, s: int, i: int)
    requires |rs| == NR_REQUEST && |ds| == NR_BLK_DEV && |qs| == NR_BLK_DEV && ListsOk(rs, ds, qs, n)
    requires PendingOk(rs, qs, n, s) && 0 <= s < NR_REQUEST && 0 <= m < NR_BLK_DEV
    requires Major(rs[s].dev) == m && 0 <= i < |qs[m]|
    ensures 0 <= qs[m][i] < NR_REQUEST && qs[m][i] != s
    ensures ListsOk(Spliced(rs, s, qs[m][i]), ds, qs[m := qs[m][..i + 1] + [s] + qs[m][i + 1..]], n)
  {
    var q := qs[m];
    assert ListOk(rs, ds[m], q, m, n);
    var t := q[i];
    var rs' := Spliced(rs, s, t);
    var qs' := qs[m := q[..i + 1] + [s] + q[i + 1..]];
    SpliceList(rs, ds[m], q, m, n, s, i);
    forall m' | 0 <= m' < NR_BLK_DEV
      ensures ListOk(rs', ds[m'], qs'[m'], m', n)
    {
      if m' != m {
        assert ListOk(rs, ds[m'], qs[m'], m', n);
        assert t !in qs[m'];
        ListFrame(rs, rs', ds[m'], qs[m'], m', n);
      }
    }
  }

  /** After the splice every slot in use is queued, s included. */
  lemma SpliceQueued(rs: seq<Request>, qs: seq<seq<int>>, m: int, s: int, i: int)
    requires |rs| == NR_REQUEST && |qs| == NR_BLK_DEV && AllQueued(rs, qs, s)
    requires 0 <= s < NR_REQUEST && 0 <= m < NR_BLK_DEV && Major(rs[s].dev) == m && 0 <= i < |qs[m]|
    requires 0 <= qs[m][i] < NR_REQUEST
    ensures AllQueued(Spliced(rs, s, qs[m][i]), qs[m := qs[m][..i + 1] + [s] + qs[m][i + 1..]], -1)
  {
    var q := qs[m];
    var rs' := Spliced(rs, s, q[i]);
    var q' := q[..i + 1] + [s] + q[i + 1..];
    var qs' := qs[m := q'];
    SplicedFields(rs, s, q[i]);
    assert forall u :: 0 <= u < NR_REQUEST ==> rs'[u].dev == rs[u].dev;
    forall u | 0 <= u < NR_REQUEST && rs'[u].dev >= 0
      ensures Major(rs'[u].dev) < NR_BLK_DEV && u in qs'[Major(rs'[u].dev)]
    {
      if u == s {
        assert q'[i + 1] == s;
      } else if Major(rs[u].dev) == m {
        var k :| 0 <= k < |q| && q[k] == u;
        if k <= i {
          assert q'[k] == u;
        } else {
          assert q'[k + 1] == u;
        }
      }
    }
  }

  /** add_request on a non-empty list: the invariant after the splice. */
  lemma SpliceKeeps(rs: seq<Request>, ds: seq<BlkDev>, qs: seq<seq<int>>, bufs: seq<BufferHead>, m: int, s: int, i: int)
    requires QInv(rs, ds, qs, bufs, s) && 0 <= s < NR_REQUEST && 0 <= m < NR_BLK_DEV
    requires Major(rs[s].dev) == m && 0 <= i < |qs[m]|
    ensures 0 <= qs[m][i] < NR_REQUEST && qs[m][i] != s
    ensures QInv(Spliced(rs, s, qs[m][i]), ds, qs[m := qs[m][..i + 1] + [s] + qs[m][i + 1..]], bufs, -1)
  {
    SpliceLists(rs, ds, qs, |bufs|, m, s, i);
    SpliceQueued(rs, qs, m, s, i);
    SplicedFields(rs, s, qs[m][i]);
    SameUse(rs, Spliced(rs, s, qs[m][i]), bufs);
  }

  /** What add_request reads off the invariant: the pending slot's buffer is
      in range, and major m's list is in range, free of the slot, linked and
      NULL-terminated. */
  lemma AddFacts(rs: seq<Request>, ds: seq<BlkDev>, qs: seq<seq<int>>, bufs: seq<BufferHead>, m: int, s: int)
    requires QInv(rs, ds, qs, bufs, s) && 0 <= s < NR_REQUEST && 0 <= m < NR_BLK_DEV
    ensures 0 <= rs[s].bh < |bufs|
    ensures ds[m].current == -1 <==> qs[m] == []
    ensures qs[m] != [] ==> ds[m].current == qs[m][0]
    ensures forall u :: 0 <= u < |qs[m]| ==> 0 <= qs[m][u] < NR_REQUEST && qs[m][u] != s
    ensures forall u :: 0 <= u < |qs[m]| - 1 ==> rs[qs[m][u]].next == qs[m][u + 1]
    ensures qs[m] != [] ==> rs[qs[m][|qs[m]| - 1]].next == -1
  {
    assert ListOk(rs, ds[m], qs[m], m, |bufs|);
    assert PendingOk(rs, qs, |bufs|, s);
  }

  /** The facts of AddFacts once the pending slot's link is cleared, as the
      elevator scan needs them. */
  lemma PreparedFacts(rs: seq<Request>, ds: seq<BlkDev>, qs: seq<seq<int>>, bufs: seq<BufferHead>, m: int, s: int)
    requires QInv(rs, ds, qs, bufs, s) && 0 <= s < NR_REQUEST && 0 <= m < NR_BLK_DEV && qs[m] != []
    ensures 0 <= rs[s].bh < |bufs|
    ensures (var rs1, q := Unlinked(rs, s), qs[m];
             ds[m].current == q[0] &&
             (forall u :: 0 <= u < |q| ==> 0 <= q[u] < NR_REQUEST && q[u] != s) &&
             (forall u :: 0 <= u < |q| - 1 ==> rs1[q[u]].next == q[u + 1]) &&
             rs1[q[|q| - 1]].next == -1)
  {
    AddFacts(rs, ds, qs, bufs, m, s);
  }

  /** Clearing the link of a slot off the list leaves the list's entries as they are. */
  lemma EntriesIgnoreSlot(rs: seq<Request>, q: seq<int>, s: int)
    requires 0 <= s < |rs| && s !in q
    ensures Entries(rs[s := rs[s].(next := -1)], q) == Entries(rs, q)
  {
  }

  /** add_request on an empty list, from the state it was called in. */
  lemma FirstAddKeeps(rs: seq<Request>, ds: seq<BlkDev>, qs: seq<seq<int>>, bufs: seq<BufferHead>, m: int, s: int)
    requires QInv(rs, ds, qs, bufs, s) && 0 <= s < NR_REQUEST && 0 <= m < NR_BLK_DEV
    requires Major(rs[s].dev) == m && ds[m].hasRequestFn && ds[m].current == -1
    ensures qs[m] == [] && 0 <= rs[s].bh < |bufs|
    ensures QInv(Unlinked(rs, s), ds[m := ds[m].(current := s)], qs[m := [s]], Cleaned(bufs, rs[s].bh), -1)
  {
    AddFacts(rs, ds, qs, bufs, m, s);
    var bufs' := Cleaned(bufs, rs[s].bh);
    PrepareKeeps(rs, ds, qs, bufs, bufs', s);
    var rs1 := Unlinked(rs, s);
    FirstKeeps(rs1, ds, qs, bufs', m, s);
    assert rs1[s := rs1[s].(next := -1)] == rs1;
  }

  /** add_request on a non-empty list, from the state it was called in: the
      invariant after the splice behind position k, and the pending requests
      in elevator order. */
  lemma SortedAddKeeps(rs: seq<Request>, ds: seq<BlkDev>, qs: seq<seq<int>>, bufs: seq<BufferHead>, m: int, s: int, k: int)
    requires QInv(rs, ds, qs, bufs, s) && 0 <= s < NR_REQUEST && 0 <= m < NR_BLK_DEV
    requires Major(rs[s].dev) == m && qs[m] != [] && 0 <= k < |qs[m]|
    requires k == InsertPos(Entries(Unlinked(rs, s), qs[m]), Unlinked(rs, s)[s].(next := -1), 0)
    ensures 0 <= qs[m][k] < NR_REQUEST && qs[m][k] != s && 0 <= rs[s].bh < |bufs|
    ensures k == InsertPos(Entries(rs, qs[m]), rs[s].(next := -1), 0)
    ensures Spliced(Unlinked(rs, s), s, qs[m][k]) == Spliced(rs, s, qs[m][k])
    ensures QInv(Spliced(rs, s, qs[m][k]), ds, qs[m := qs[m][..k + 1] + [s] + qs[m][k + 1..]], Cleaned(bufs, rs[s].bh), -1)
    ensures Entries(Spliced(rs, s, qs[m][k]), qs[m][..k + 1] + [s] + qs[m][k + 1..]) ==
            Inserted(Entries(rs, qs[m]), rs[s].(next := -1))
  {
    var q := qs[m];
    AddFacts(rs, ds, qs, bufs, m, s);
    var bufs' := Cleaned(bufs, rs[s].bh);
    PrepareKeeps(rs, ds, qs, bufs, bufs', s);
    var rs1 := Unlinked(rs, s);
    EntriesIgnoreSlot(rs, q, s);
    SpliceKeeps(rs1, ds, qs, bufs', m, s, k);
    SplicedIgnoresNext(rs, s, q[k]);
    EntriesSpliced(rs, q, s, k);
  }

  /** A link written into s before the splice is overwritten by it. */
  lemma SplicedIgnoresNext(rs: seq<Request>, s: int, t: int)
    requires 0 <= s < |rs| && 0 <= t < |rs| && s != t
    ensures Spliced(rs[s := rs[s].(next := -1)], s, t) == Spliced(rs, s, t)
  {
    assert rs[s := rs[s].(next := -1)][s := rs[s].(next := rs[t].next)] == rs[s := rs[s].(next := rs[t].next)];
  }

  /** The invariant after the pending slot's link and its buffer's dirty flag are cleared. */
  lemma PrepareKeeps(rs: seq<Request>, ds: seq<BlkDev>, qs: seq<seq<int>>, bufs: seq<BufferHead>,
                     bufs': seq<BufferHead>, s: int)
    requires QInv(rs, ds, qs, bufs, s) && 0 <= s < NR_REQUEST && |bufs'| == |bufs|
    requires forall u :: 0 <= u < |bufs| ==> bufs'[u].lock == bufs[u].lock
    ensures QInv(rs[s := rs[s].(next := -1)], ds, qs, bufs', s)
  {
    var rs' := rs[s := rs[s].(next := -1)];
    forall m | 0 <= m < NR_BLK_DEV
      ensures ListOk(rs', ds[m], qs[m], m, |bufs'|)
    {
      assert ListOk(rs, ds[m], qs[m], m, |bufs|);
      assert s !in qs[m];
      ListFrame(rs, rs', ds[m], qs[m], m, |bufs|);
    }
    SameUse(rs, rs', bufs);
  }

  /** The pending requests after the splice are those before, with the new one
      where InsertPos puts it. */
  lemma EntriesSpliced(rs: seq<Request>, q: seq<int>, s: int, i: int)
    requires 0 <= i < |q| && 0 <= s < |rs|
    requires forall k :: 0 <= k < |q| ==> 0 <= q[k] < |rs| && q[k] != s
    requires i == InsertPos(Entries(rs, q), rs[s].(next := -1), 0)
    ensures Entries(Spliced(rs, s, q[i]), q[..i + 1] + [s] + q[i + 1..]) == Inserted(Entries(rs, q), rs[s].(next := -1))
  {
    var q' := q[..i + 1] + [s] + q[i + 1..];
    var rs' := Spliced(rs, s, q[i]);
    var L := Entries(rs', q');
    var R := Inserted(Entries(rs, q), rs[s].(next := -1));
    assert |L| == |R|;
    forall k | 0 <= k < |L|
      ensures L[k] == R[k]
    {
      if k <= i {
        assert q'[k] == q[k];
      } else if k > i + 1 {
        assert q'[k] == q[k - 1];
      }
    }
  }

  /** A scan that stopped at i, having passed every earlier pair, stopped
      where InsertPos says. */
  lemma InsertPosFirst(P: seq<Request>, R: Request, i: nat)
    requires i < |P|
    requires forall j :: 0 <= j < i ==> !InsertHere(P[j], P[j + 1], R)
    requires i + 1 < |P| ==> InsertHere(P[i], P[i + 1], R)
    ensures i == InsertPos(P, R, 0)
  {
  }

  class RequestQueue {
    const request: array<Request>
    const blkDev: array<BlkDev>
    /** queues[m]: the slots of major m's pending list, from current_request on. */
    ghost var queues: seq<seq<int>>

    ghost predicate Inv(pool: array<BufferHead>, pending: int)
      reads this, request, blkDev, pool
    {
      QInv(request[..], blkDev[..], queues, pool[..], pending)
    }

    ghost predicate Valid(pool: array<BufferHead>)
      reads this, request, blkDev, pool
    {
      Inv(pool, -1)
    }

    /** Major m's pending requests in list order. */
    ghost function Pending(m: int): seq<Request>
      reads this, request
      requires 0 <= m < |queues|
    {
      Entries(request[..], queues[m])
    }

    /** blk_dev_init on top of the static initialisation: every slot free
        (dev = -1, next = NULL) and no driver registered. */
    constructor BlkDevInit()
      ensures fresh(request) && fresh(blkDev) && request.Length == NR_REQUEST && blkDev.Length == NR_BLK_DEV
      ensures forall s :: 0 <= s < NR_REQUEST ==> request[s] == FreeSlot
      ensures forall m :: 0 <= m < NR_BLK_DEV ==> blkDev[m] == BlkDev(false, -1)
      ensures queues == seq(NR_BLK_DEV, _ => [])
      ensures Idle()
    {
      request := new Request[NR_REQUEST](_ => Request(0, 0, 0, 0, 0, 0, -1, -1));
      blkDev := new BlkDev[NR_BLK_DEV](_ => BlkDev(false, -1));
      queues := seq(NR_BLK_DEV, _ => []);
      new;
      var i := 0;
      while i < NR_REQUEST
        invariant 0 <= i <= NR_REQUEST
        invariant forall s :: 0 <= s < i ==> request[s] == FreeSlot
        invariant forall s :: i <= s < NR_REQUEST ==> request[s] == Request(0, 0, 0, 0, 0, 0, -1, -1)
        invariant forall m :: 0 <= m < NR_BLK_DEV ==> blkDev[m] == BlkDev(false, -1)
        invariant queues == seq(NR_BLK_DEV, _ => [])
      {
        request[i] := request[i].(dev := -1, next := -1);
        i := i + 1;
      }
    }

    /** No slot in use and no list pending: the state blk_dev_init leaves
        and the registration of drivers keeps. */
    ghost predicate Idle()
      reads this, request, blkDev
    {
      request.Length == NR_REQUEST && blkDev.Length == NR_BLK_DEV && |queues| == NR_BLK_DEV &&
      (forall s :: 0 <= s < NR_REQUEST ==> request[s].dev < 0) &&
      (forall m :: 0 <= m < NR_BLK_DEV ==> queues[m] == [] && blkDev[m].current == -1)
    }

    /** An idle request layer is consistent with every buffer pool. */
    lemma IdleValid(pool: array<BufferHead>)
      requires Idle()
      ensures Valid(pool)
    {
      forall m | 0 <= m < NR_BLK_DEV
        ensures ListOk(request[..], blkDev[..][m], queues[m], m, pool.Length)
      {
        assert blkDev[..][m] == blkDev[m];
      }
    }

    /** A driver's init routine installing its request function (hd_init,
        floppy_init and rd_init do this for majors 3, 2 and 1). */
    method Register(major: int, pool: array<BufferHead>)
      requires Valid(pool) && 0 <= major < NR_BLK_DEV
      modifies blkDev
      ensures Valid(pool)
      ensures blkDev[..] == old(blkDev[..])[major := old(blkDev[major]).(hasRequestFn := true)]
      ensures old(Idle()) ==> Idle()
    {
      RegisterKeeps(request[..], blkDev[..], queues, pool[..], major);
      blkDev[major] := blkDev[major].(hasRequestFn := true);
    }

    /** end_request(uptodate) on major's current request: record the outcome in
        the buffer and unlock it, free the slot and advance the list. On
        failure the source prints the block number through the request's
        buffer pointer, which would be a NULL dereference for a request
        without a buffer (`fault`); under the invariant every queued request
        carries one. */
    method EndRequest(major: int, uptodate: bool, pool: array<BufferHead>) returns (fault: bool)
      requires Valid(pool) && 0 <= major < NR_BLK_DEV && queues[major] != []
      modifies this, request, blkDev, pool
      ensures Valid(pool) && !fault
      ensures (var c := old(queues[major][0]);
               0 <= c < NR_REQUEST && 0 <= old(request[c].bh) < pool.Length &&
               queues == old(queues[major := queues[major][1..]]) &&
               request[..] == old(request[..])[c := old(request[c]).(dev := -1)] &&
               blkDev[..] == old(blkDev[..])[major := old(blkDev[major]).(current := old(request[c].next))] &&
               pool[..] == old(pool[..])[old(request[c].bh) := old(pool[request[c].bh]).(uptodate := uptodate, lock := false)])
    {
      HeadFacts(request[..], blkDev[..], queues, pool[..], major);
      RetireKeeps(request[..], blkDev[..], queues, pool[..], major, uptodate);
      var c := blkDev[major].current;
      var b := request[c].bh;
      if b >= 0 {
        pool[b] := pool[b].(uptodate := uptodate, lock := false);
      }
      fault := !uptodate && b < 0;
      request[c] := request[c].(dev := -1);
      blkDev[major] := blkDev[major].(current := request[c].next);
      queues := queues[major := queues[major][1..]];
    }

    /** INIT_REQUEST for major `nr`: nothing to do when the list is empty; a
        panic when the current request belongs to another major or its buffer
        is not locked. Neither panic is possible under the invariant. */
    method InitRequest(nr: int, pool: array<BufferHead>) returns (r: InitResult)
      requires request.Length == NR_REQUEST && blkDev.Length == NR_BLK_DEV && 0 <= nr < NR_BLK_DEV
      requires blkDev[nr].current == -1 || 0 <= blkDev[nr].current < NR_REQUEST
      requires blkDev[nr].current != -1 ==> request[blkDev[nr].current].bh < pool.Length
      ensures r == NoRequest <==> blkDev[nr].current == -1
      ensures r == ListDestroyed <==> blkDev[nr].current != -1 && Major(request[blkDev[nr].current].dev) != nr
      ensures r == NotLocked ==> (var b := request[blkDev[nr].current].bh; 0 <= b && !pool[b].lock)
      ensures Valid(pool) ==> r == NoRequest || r == Proceed
    {
      if Valid(pool) && queues[nr] != [] {
        HeadFacts(request[..], blkDev[..], queues, pool[..], nr);
      }
      if Valid(pool) && queues[nr] == [] {
        assert ListOk(request[..], blkDev[..][nr], queues[nr], nr, pool.Length);
      }
      var c := blkDev[nr].current;
      if c == -1 {
        return NoRequest;
      }
      if Major(request[c].dev) != nr {
        return ListDestroyed;
      }
      var b := request[c].bh;
      if b >= 0 && !pool[b].lock {
        return NotLocked;
      }
      r := Proceed;
    }

    /** The free-slot scan of make_request: READ searches down from the top of
        the array, WRITE from two thirds of the way up, so writes never take
        the upper third. Returns the highest free slot below the start, or -1. */
    method FindFreeSlot(rw: int) returns (s: int)
      requires request.Length == NR_REQUEST
      ensures var top := if rw == READ then NR_REQUEST else (NR_REQUEST * 2) / 3;
        -1 <= s < top && (s >= 0 ==> request[s].dev < 0) &&
        forall t :: s < t < top ==> request[t].dev >= 0
    {
      var top := if rw == READ then NR_REQUEST else (NR_REQUEST * 2) / 3;
      s := top - 1;
      while s >= 0 && request[s].dev >= 0
        invariant -1 <= s < top
        invariant forall t :: s < t < top ==> request[t].dev >= 0
      {
        s := s - 1;
      }
    }

    /** One sleep inside ll_rw_block: take the next environment step; a driver
        completion is carried out, other steps do not reach this layer. A
        buffer `mine` that no slot holds stays as it is and stays out of every
        slot. */
    method Sleep(pool: array<BufferHead>, env: Env, ghost mine: int) returns (woke: bool)
      requires Valid(pool)
      requires forall s :: 0 <= s < NR_REQUEST && request[s].dev >= 0 ==> request[s].bh != mine
      modifies this, request, blkDev, pool, env
      ensures forall m :: 0 <= m < NR_BLK_DEV ==> blkDev[m].hasRequestFn == old(blkDev[m].hasRequestFn)
      ensures Valid(pool)
      ensures woke <==> old(env.steps) != []
      ensures env.steps == if woke then old(env.steps)[1..] else old(env.steps)
      ensures forall b :: 0 <= b < pool.Length ==> FlagsOnly(pool[b], old(pool[b]))
      ensures forall s :: 0 <= s < NR_REQUEST && request[s].dev >= 0 ==> request[s].bh != mine
      ensures 0 <= mine < pool.Length ==> pool[mine] == old(pool[mine])
      ensures !woke ==> pool[..] == old(pool[..])
    {
      if env.steps == [] {
        return false;
      }
      var st := env.steps[0];
      env.steps := env.steps[1..];
      woke := true;
      if st.Retire? && 0 <= st.major < NR_BLK_DEV && blkDev[st.major].current != -1 {
        assert ListOk(request[..], blkDev[..][st.major], queues[st.major], st.major, pool.Length);
        ghost var c := blkDev[st.major].current;
        ghost var bh := request[c].bh;
        ghost var bufs := pool[..];
        ghost var rs := request[..];
        var _ := EndRequest(st.major, st.uptodate, pool);
        forall b | 0 <= b < pool.Length
          ensures FlagsOnly(pool[b], bufs[b]) && (b != bh ==> pool[b] == bufs[b])
        {
          assert pool[b] == pool[..][b];
        }
        forall s | 0 <= s < NR_REQUEST
          ensures request[s] == if s == c then rs[c].(dev := -1) else rs[s]
        {
          assert request[s] == request[..][s];
        }
      }
    }

    /** lock_buffer: sleep while the buffer is locked, then lock it. When it
        succeeds, no slot holds the buffer. */
    method LockBuffer(bh: int, pool: array<BufferHead>, env: Env) returns (woke: bool)
      requires Valid(pool) && 0 <= bh < pool.Length
      modifies this, request, blkDev, pool, env
      ensures forall m :: 0 <= m < NR_BLK_DEV ==> blkDev[m].hasRequestFn == old(blkDev[m].hasRequestFn)
      ensures Valid(pool) && |env.steps| <= old(|env.steps|)
      ensures forall b :: 0 <= b < pool.Length ==> FlagsOnly(pool[b], old(pool[b]))
      ensures woke ==> pool[bh].lock && forall s :: 0 <= s < NR_REQUEST && request[s].dev >= 0 ==> request[s].bh != bh
      ensures !woke ==> env.steps == []
      ensures |env.steps| == old(|env.steps|) ==> forall b :: 0 <= b < pool.Length && b != bh ==> pool[b] == old(pool[b])
      ensures !old(pool[bh].lock) ==>
        woke && env.steps == old(env.steps) && unchanged(this, request, blkDev) &&
        pool[..] == old(pool[..])[bh := old(pool[bh]).(lock := true)]
    {
      while pool[bh].lock
        invariant Valid(pool) && |env.steps| <= old(|env.steps|)
        invariant forall m :: 0 <= m < NR_BLK_DEV ==> blkDev[m].hasRequestFn == old(blkDev[m].hasRequestFn)
        invariant forall b :: 0 <= b < pool.Length ==> FlagsOnly(pool[b], old(pool[b]))
        invariant old(pool[bh].lock) || (env.steps == old(env.steps) && unchanged(this, request, blkDev, pool))
        invariant |env.steps| == old(|env.steps|) ==> pool[..] == old(pool[..])
        decreases |env.steps|
      {
        woke := Sleep(pool, env, -1);
        if !woke {
          return;
        }
      }
      ghost var before := pool[..];
      pool[bh] := pool[bh].(lock := true);
      LocksKeep(request[..], blkDev[..], queues, before, pool[..], -1);
      woke := true;
    }

    /** The scan of add_request over a non-empty list starting at `first`:
        the first tmp whose successor passes InsertHere, else the last request. */
    method ScanList(slot: int, first: int, ghost q: seq<int>, ghost rs: seq<Request>) returns (tmp: int, ghost i: int)
      requires request.Length == NR_REQUEST && rs == request[..] && 0 <= slot < NR_REQUEST && q != [] && first == q[0]
      requires forall k :: 0 <= k < |q| ==> 0 <= q[k] < NR_REQUEST
      requires forall k :: 0 <= k < |q| - 1 ==> rs[q[k]].next == q[k + 1]
      requires rs[q[|q| - 1]].next == -1
      ensures 0 <= i < |q| && tmp == q[i]
      ensures i == InsertPos(Entries(rs, q), rs[slot].(next := -1), 0)
    {
      ghost var P := Entries(rs, q);
      ghost var R := rs[slot].(next := -1);
      tmp, i := first, 0;
      while request[tmp].next != -1 && !InsertHere(request[tmp], request[request[tmp].next], request[slot])
        invariant 0 <= i < |q| && tmp == q[i]
        invariant request[tmp].next == -1 || (i + 1 < |q| && request[tmp].next == q[i + 1])
        invariant forall j :: 0 <= j < i ==> !InsertHere(P[j], P[j + 1], R)
        decreases |q| - i
      {
        assert P[i] == rs[tmp].(next := -1) && P[i + 1] == rs[q[i + 1]].(next := -1);
        tmp := request[tmp].next;
        i := i + 1;
      }
      if i + 1 < |q| {
        assert P[i] == rs[tmp].(next := -1) && P[i + 1] == rs[q[i + 1]].(next := -1);
      }
      InsertPosFirst(P, R, i);
    }

    /** add_request: clear the buffer's dirty flag; on an empty list the request
        becomes current (and the driver's request function is started, which
        is outside this model); otherwise it is spliced in after the first tmp
        with (IN_ORDER(tmp,req) || !IN_ORDER(tmp,tmp->next)) && IN_ORDER(req,tmp->next),
        or at the tail. */
    method AddRequest(major: int, slot: int, pool: array<BufferHead>)
      requires Inv(pool, slot) && 0 <= slot < NR_REQUEST && 0 <= major < NR_BLK_DEV
      requires Major(request[slot].dev) == major && blkDev[major].hasRequestFn
      modifies this, request, blkDev, pool
      ensures Valid(pool)
      ensures slot in queues[major] && request[slot].(next := -1) == old(request[slot]).(next := -1)
      ensures (var b := old(request[slot].bh); 0 <= b < pool.Length && pool[..] == Cleaned(old(pool[..]), b))
      ensures (var rs, q := old(request[..]), old(queues[major]);
               q == [] ==>
                 request[..] == Unlinked(rs, slot) &&
                 blkDev[..] == old(blkDev[..])[major := old(blkDev[major]).(current := slot)] &&
                 queues == old(queues)[major := [slot]])
      ensures (var rs, q := old(request[..]), old(queues[major]);
               q != [] ==>
                 (var k := InsertPos(Entries(rs, q), rs[slot].(next := -1), 0);
                  0 <= q[k] < NR_REQUEST &&
                  request[..] == Spliced(rs, slot, q[k]) && blkDev[..] == old(blkDev[..]) &&
                  queues == old(queues)[major := q[..k + 1] + [slot] + q[k + 1..]]))
    {
      AddFacts(request[..], blkDev[..], queues, pool[..], major, slot);
      if blkDev[major].current == -1 {
        AddFirst(major, slot, pool, request[..], blkDev[..], queues, pool[..]);
        // (dev->request_fn)(): the driver is started; drivers are outside this model.
      } else {
        AddBehind(major, slot, pool);
      }
    }

    /** add_request on a non-empty list, from the state it was called in. */
    method AddBehind(major: int, slot: int, pool: array<BufferHead>)
      requires Inv(pool, slot) && 0 <= slot < NR_REQUEST && 0 <= major < NR_BLK_DEV
      requires Major(request[slot].dev) == major && queues[major] != []
      modifies this, request, pool
      ensures Valid(pool) && slot in queues[major]
      ensures (var b := old(request[slot].bh); 0 <= b < pool.Length && pool[..] == Cleaned(old(pool[..]), b))
      ensures (var rs, q := old(request[..]), old(queues[major]);
               var k := InsertPos(Entries(rs, q), rs[slot].(next := -1), 0);
               0 <= q[k] < NR_REQUEST && q[k] != slot &&
               request[..] == Spliced(rs, slot, q[k]) &&
               queues == old(queues)[major := q[..k + 1] + [slot] + q[k + 1..]])
    {
      ghost var rs, q := request[..], queues[major];
      PreparedFacts(rs, blkDev[..], queues, pool[..], major, slot);
      ghost var k := InsertPos(Entries(Unlinked(rs, slot), q), Unlinked(rs, slot)[slot].(next := -1), 0);
      SortedAddKeeps(rs, blkDev[..], queues, pool[..], major, slot, k);
      AddSorted(major, slot, pool, rs, pool[..], q, k, queues[major := q[..k + 1] + [slot] + q[k + 1..]]);
    }

    /** add_request on an empty list: the request becomes the current one. */
    method AddFirst(major: int, slot: int, pool: array<BufferHead>,
                    ghost rs: seq<Request>, ghost ds: seq<BlkDev>, ghost qs: seq<seq<int>>, ghost bufs: seq<BufferHead>)
      requires rs == request[..] && ds == blkDev[..] && qs == queues && bufs == pool[..]
      requires QInv(rs, ds, qs, bufs, slot) && 0 <= slot < NR_REQUEST && 0 <= major < NR_BLK_DEV
      requires Major(rs[slot].dev) == major && ds[major].hasRequestFn && ds[major].current == -1
      modifies this, request, blkDev, pool
      ensures Valid(pool) && qs[major] == [] && slot in queues[major]
      ensures 0 <= rs[slot].bh < |bufs| && pool[..] == Cleaned(bufs, rs[slot].bh)
      ensures request[..] == Unlinked(rs, slot)
      ensures blkDev[..] == ds[major := ds[major].(current := slot)]
      ensures queues == qs[major := [slot]]
    {
      FirstAddKeeps(rs, ds, qs, bufs, major, slot);
      Prepare(slot, pool, rs, bufs);
      blkDev[major] := blkDev[major].(current := slot);
      queues := queues[major := [slot]];
    }

    /** add_request on a non-empty list q: clear the links, run the elevator
        scan and splice `slot` in behind q[k], where k is where InsertPos puts
        it; the list bookkeeping becomes qs'. The caller supplies the
        invariant of the state after the splice (SortedAddKeeps). */
    method AddSorted(major: int, slot: int, pool: array<BufferHead>, ghost rs: seq<Request>, ghost bufs: seq<BufferHead>,
                     ghost q: seq<int>, ghost k: int, ghost qs': seq<seq<int>>)
      requires request.Length == NR_REQUEST && rs == request[..] && bufs == pool[..] && 0 <= major < NR_BLK_DEV == |queues|
      requires 0 <= slot < NR_REQUEST && 0 <= rs[slot].bh < |bufs| && q == queues[major] && q != []
      requires blkDev.Length == NR_BLK_DEV && blkDev[major].current == q[0]
      requires forall u :: 0 <= u < |q| ==> 0 <= q[u] < NR_REQUEST && q[u] != slot
      requires forall u :: 0 <= u < |q| - 1 ==> Unlinked(rs, slot)[q[u]].next == q[u + 1]
      requires Unlinked(rs, slot)[q[|q| - 1]].next == -1
      requires k == InsertPos(Entries(Unlinked(rs, slot), q), Unlinked(rs, slot)[slot].(next := -1), 0)
      requires qs' == queues[major := q[..k + 1] + [slot] + q[k + 1..]]
      requires QInv(Spliced(Unlinked(rs, slot), slot, q[k]), blkDev[..], qs', Cleaned(bufs, rs[slot].bh), -1)
      modifies this, request, pool
      ensures request[..] == Spliced(Unlinked(rs, slot), slot, q[k]) && pool[..] == Cleaned(bufs, rs[slot].bh) && queues == qs'
      ensures Valid(pool) && slot in queues[major]
    {
      Prepare(slot, pool, rs, bufs);
      ghost var k' := Splice(slot, blkDev[major].current, q, Unlinked(rs, slot));
      assert qs'[major][k + 1] == slot;
      queues := qs';
    }

    /** The first statements of add_request: clear the request's link and its
        buffer's dirty flag. */
    method Prepare(slot: int, pool: array<BufferHead>, ghost rs: seq<Request>, ghost bufs: seq<BufferHead>)
      requires request.Length == NR_REQUEST && rs == request[..] && bufs == pool[..]
      requires 0 <= slot < NR_REQUEST && 0 <= rs[slot].bh < |bufs|
      modifies request, pool
      ensures request[..] == Unlinked(rs, slot)
      ensures pool[..] == Cleaned(bufs, rs[slot].bh)
    {
      request[slot] := request[slot].(next := -1);
      var b := request[slot].bh;
      if b >= 0 {
        pool[b] := pool[b].(dirt := false);
      }
    }

    /** add_request on a non-empty list q: the elevator scan, then the splice
        of `slot` behind slot q[k]. */
    method Splice(slot: int, first: int, ghost q: seq<int>, ghost rs: seq<Request>) returns (ghost k: int)
      requires request.Length == NR_REQUEST && rs == request[..] && 0 <= slot < NR_REQUEST && q != [] && first == q[0]
      requires forall u :: 0 <= u < |q| ==> 0 <= q[u] < NR_REQUEST && q[u] != slot
      requires forall u :: 0 <= u < |q| - 1 ==> rs[q[u]].next == q[u + 1]
      requires rs[q[|q| - 1]].next == -1
      modifies request
      ensures 0 <= k < |q| && k == InsertPos(Entries(rs, q), rs[slot].(next := -1), 0)
      ensures request[..] == Spliced(rs, slot, q[k])
    {
      var tmp;
      tmp, k := ScanList(slot, first, q, rs);
      request[slot] := request[slot].(next := request[tmp].next);
      request[tmp] := request[tmp].(next := slot);
    }

    /** The free-slot wait of make_request: scan for a free slot; with none, a
        read-ahead or write-ahead unlocks its buffer and gives up, anything
        else sleeps on wait_for_request and scans again. */
    method GetSlot(rw: int, ahead: bool, bh: int, pool: array<BufferHead>, env: Env) returns (st: Status, s: int)
      requires Valid(pool) && 0 <= bh < pool.Length && pool[bh].lock
      requires forall t :: 0 <= t < NR_REQUEST && request[t].dev >= 0 ==> request[t].bh != bh
      modifies this, request, blkDev, pool, env
      ensures forall m :: 0 <= m < NR_BLK_DEV ==> blkDev[m].hasRequestFn == old(blkDev[m].hasRequestFn)
      ensures Valid(pool) && |env.steps| <= old(|env.steps|)
      ensures forall b :: 0 <= b < pool.Length ==> FlagsOnly(pool[b], old(pool[b]))
      ensures forall t :: 0 <= t < NR_REQUEST && request[t].dev >= 0 ==> request[t].bh != bh
      ensures -1 <= s < NR_REQUEST
      ensures s >= 0 ==> st == Done && request[s].dev < 0 && (rw == READ || s < (NR_REQUEST * 2) / 3) &&
                         pool[bh] == old(pool[bh])
      ensures s < 0 ==> (st == Asleep && pool[bh] == old(pool[bh])) ||
                        (st == Done && ahead && pool[bh] == old(pool[bh]).(lock := false))
      ensures |env.steps| == old(|env.steps|) ==> forall b :: 0 <= b < pool.Length && b != bh ==> pool[b] == old(pool[b])
      ensures st == Asleep ==> env.steps == []
    {
      s := FindFreeSlot(rw);
      while s < 0
        invariant Valid(pool) && |env.steps| <= old(|env.steps|)
        invariant forall m :: 0 <= m < NR_BLK_DEV ==> blkDev[m].hasRequestFn == old(blkDev[m].hasRequestFn)
        invariant forall b :: 0 <= b < pool.Length ==> FlagsOnly(pool[b], old(pool[b]))
        invariant forall t :: 0 <= t < NR_REQUEST && request[t].dev >= 0 ==> request[t].bh != bh
        invariant pool[bh] == old(pool[bh])
        invariant |env.steps| == old(|env.steps|) ==> pool[..] == old(pool[..])
        invariant -1 <= s < NR_REQUEST && (s >= 0 ==> request[s].dev < 0 && (rw == READ || s < (NR_REQUEST * 2) / 3))
        decreases |env.steps|
      {
        if ahead {
          ghost var here := pool[..];
          pool[bh] := pool[bh].(lock := false);  // unlock_buffer(bh)
          LocksKeep(request[..], blkDev[..], queues, here, pool[..], -1);
          return Done, -1;
        }
        var woke := Sleep(pool, env, bh);
        if !woke {
          return Asleep, -1;
        }
        s := FindFreeSlot(rw);
      }
      st := Done;
    }

    /** make_request for buffer bh of major `major`. READA/WRITEA give up at
        once on a locked buffer and, with no free slot, give up instead of
        sleeping; an unknown command panics. The buffer is locked (waiting for
        it if need be); a WRITE of a clean buffer or a READ of an up-to-date one
        unlocks it and stops. Otherwise a free slot is taken, filled from the
        buffer, and added to the list. */
    method MakeRequest(major: int, rw0: int, bh: int, pool: array<BufferHead>, env: Env)
      returns (st: Status, slot: int)
      requires Valid(pool) && 0 <= major < NR_BLK_DEV && blkDev[major].hasRequestFn
      requires 0 <= bh < pool.Length && KeyInRange(pool[bh]) && Major(pool[bh].dev) == major
      modifies this, request, blkDev, pool, env
      ensures Valid(pool)
      ensures forall b :: 0 <= b < pool.Length ==> FlagsOnly(pool[b], old(pool[b]))
      ensures |env.steps| <= old(|env.steps|)
      ensures forall m :: 0 <= m < NR_BLK_DEV ==> blkDev[m].hasRequestFn == old(blkDev[m].hasRequestFn)
      ensures |env.steps| == old(|env.steps|) ==> forall b :: 0 <= b < pool.Length && b != bh ==> pool[b] == old(pool[b])
      ensures (rw0 == READ || rw0 == WRITE) && !old(pool[bh].lock) &&
              ((rw0 == WRITE && old(pool[bh].dirt)) || (rw0 == READ && !old(pool[bh].uptodate))) ==>
                st == Asleep || slot >= 0
      ensures (rw0 == READA || rw0 == WRITEA) && old(pool[bh].lock) ==>
                st == Done && slot == -1 && unchanged(this, request, blkDev, pool, env)
      ensures st.Panic? <==> rw0 != READ && rw0 != WRITE && rw0 != READA && rw0 != WRITEA
      ensures st == Done || st == Asleep || st.Panic?
      ensures st == Asleep ==> env.steps == []
      ensures (var cmd := if rw0 == READ || rw0 == READA then READ else WRITE;
               !old(pool[bh].lock) && !st.Panic? &&
               ((cmd == WRITE && !old(pool[bh].dirt)) || (cmd == READ && old(pool[bh].uptodate))) ==>
                 st == Done && slot == -1 && env.steps == old(env.steps) && unchanged(this, request, blkDev) &&
                 pool[..] == old(pool[..]))
      ensures slot >= 0 ==>
        st == Done && slot < NR_REQUEST && (rw0 == READ || rw0 == READA || slot < (NR_REQUEST * 2) / 3) &&
        request[slot].(next := -1) == Filled(old(pool[bh]), bh, if rw0 == READ || rw0 == READA then READ else WRITE) &&
        slot in queues[major] && pool[bh].lock && !pool[bh].dirt
    {
      var rw := rw0;
      var ahead := rw == READA || rw == WRITEA;
      if ahead {
        if pool[bh].lock {
          return Done, -1;
        }
        rw := if rw == READA then READ else WRITE;
      }
      if rw != READ && rw != WRITE {
        return Panic("Bad block dev command, must be R/W/RA/WA"), -1;
      }
      var woke := LockBuffer(bh, pool, env);
      if !woke {
        return Asleep, -1;
      }
      st, slot := Submit(major, rw, ahead, bh, pool, env);
    }

    /** make_request once the buffer is locked: nothing to do for a WRITE of a
        clean buffer or a READ of an up-to-date one (the buffer is unlocked);
        otherwise a free slot is taken, filled from the buffer and added. */
    method Submit(major: int, rw: int, ahead: bool, bh: int, pool: array<BufferHead>, env: Env)
      returns (st: Status, slot: int)
      requires Valid(pool) && 0 <= major < NR_BLK_DEV && blkDev[major].hasRequestFn && (rw == READ || rw == WRITE)
      requires 0 <= bh < pool.Length && KeyInRange(pool[bh]) && Major(pool[bh].dev) == major && pool[bh].lock
      requires forall t :: 0 <= t < NR_REQUEST && request[t].dev >= 0 ==> request[t].bh != bh
      modifies this, request, blkDev, pool, env
      ensures Valid(pool)
      ensures forall b :: 0 <= b < pool.Length ==> FlagsOnly(pool[b], old(pool[b]))
      ensures |env.steps| <= old(|env.steps|) && (st == Done || st == Asleep)
      ensures st == Asleep ==> env.steps == []
      ensures forall m :: 0 <= m < NR_BLK_DEV ==> blkDev[m].hasRequestFn == old(blkDev[m].hasRequestFn)
      ensures |env.steps| == old(|env.steps|) ==> forall b :: 0 <= b < pool.Length && b != bh ==> pool[b] == old(pool[b])
      ensures !ahead && !((rw == WRITE && !old(pool[bh].dirt)) || (rw == READ && old(pool[bh].uptodate))) ==>
                st == Asleep || slot >= 0
      ensures (rw == WRITE && !old(pool[bh].dirt)) || (rw == READ && old(pool[bh].uptodate)) ==>
                st == Done && slot == -1 && env.steps == old(env.steps) && unchanged(this, request, blkDev) &&
                pool[..] == old(pool[..])[bh := old(pool[bh]).(lock := false)]
      ensures slot >= 0 ==>
        st == Done && slot < NR_REQUEST && (rw == READ || slot < (NR_REQUEST * 2) / 3) &&
        request[slot].(next := -1) == Filled(old(pool[bh]), bh, rw) &&
        slot in queues[major] && pool[bh].lock && !pool[bh].dirt
    {
      if (rw == WRITE && !pool[bh].dirt) || (rw == READ && pool[bh].uptodate) {
        ghost var here := pool[..];
        pool[bh] := pool[bh].(lock := false);  // unlock_buffer(bh)
        LocksKeep(request[..], blkDev[..], queues, here, pool[..], -1);
        return Done, -1;
      }
      var s;
      st, s := GetSlot(rw, ahead, bh, pool, env);
      if s < 0 {
        return st, -1;
      }
      Queue(major, rw, bh, s, pool);
      slot := s;
    }

    /** The end of make_request: free slot s is filled from the locked buffer
        bh and added to major's list, which clears the buffer's dirty flag. */
    method Queue(major: int, rw: int, bh: int, s: int, pool: array<BufferHead>)
      requires Valid(pool) && 0 <= major < NR_BLK_DEV && blkDev[major].hasRequestFn && (rw == READ || rw == WRITE)
      requires 0 <= bh < pool.Length && KeyInRange(pool[bh]) && Major(pool[bh].dev) == major && pool[bh].lock
      requires forall t :: 0 <= t < NR_REQUEST && request[t].dev >= 0 ==> request[t].bh != bh
      requires 0 <= s < NR_REQUEST && request[s].dev < 0
      modifies this, request, blkDev, pool
      ensures Valid(pool)
      ensures forall m :: 0 <= m < NR_BLK_DEV ==> blkDev[m].hasRequestFn == old(blkDev[m].hasRequestFn)
      ensures pool[..] == Cleaned(old(pool[..]), bh)
      ensures request[s].(next := -1) == Filled(old(pool[bh]), bh, rw) && s in queues[major]
    {
      var b := pool[bh];
      FillKeeps(request[..], blkDev[..], queues, pool[..], s, Filled(b, bh, rw));
      request[s] := Filled(b, bh, rw);
      AddRequest(major, s, pool);
    }

    /** ll_rw_block: a buffer whose major has no registered driver is refused
        (the source prints a message and returns); otherwise make_request. */
    method LlRwBlock(rw: int, bh: int, pool: array<BufferHead>, env: Env) returns (st: Status, slot: int)
      requires Valid(pool) && 0 <= bh < pool.Length && KeyInRange(pool[bh])
      modifies this, request, blkDev, pool, env
      ensures Valid(pool)
      ensures forall b :: 0 <= b < pool.Length ==> FlagsOnly(pool[b], old(pool[b]))
      ensures |env.steps| <= old(|env.steps|)
      ensures (rw == READ || rw == WRITE || rw == READA || rw == WRITEA) ==> st == Done || st == Asleep
      ensures st == Asleep ==> env.steps == []
      ensures forall m :: 0 <= m < NR_BLK_DEV ==> blkDev[m].hasRequestFn == old(blkDev[m].hasRequestFn)
      ensures |env.steps| == old(|env.steps|) ==> forall b :: 0 <= b < pool.Length && b != bh ==> pool[b] == old(pool[b])
      ensures (rw == READ || rw == WRITE) && !old(pool[bh].lock) &&
              Major(old(pool[bh].dev)) < NR_BLK_DEV && old(blkDev[Major(pool[bh].dev)].hasRequestFn) &&
              ((rw == WRITE && old(pool[bh].dirt)) || (rw == READ && !old(pool[bh].uptodate))) ==>
                st == Asleep || slot >= 0
      ensures Major(old(pool[bh].dev)) >= NR_BLK_DEV || !old(blkDev[Major(pool[bh].dev)].hasRequestFn) ==>
                st == Done && slot == -1 && unchanged(this, request, blkDev, pool, env)
      ensures (rw == READA || rw == WRITEA) && old(pool[bh].lock) ==>
                st == Done && slot == -1 && unchanged(this, request, blkDev, pool, env)
      ensures slot >= 0 ==>
                (var m := Major(old(pool[bh].dev));
                 m < NR_BLK_DEV && slot < NR_REQUEST && slot in queues[m] && pool[bh].lock && !pool[bh].dirt &&
                 request[slot].(next := -1) == Filled(old(pool[bh]), bh, if rw == READ || rw == READA then READ else WRITE))
    {
      var major := Major(pool[bh].dev);
      if major >= NR_BLK_DEV || !blkDev[major].hasRequestFn {
        return Done, -1;
      }
      st, slot := MakeRequest(major, rw, bh, pool, env);
    }
  }
}
