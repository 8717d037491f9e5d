/** The kernel's bucket allocator (lib/malloc.c). Every bucket is one page
    from get_free_page holding objects of a single size; a bucket
    descriptor records the page, the head of the page's free list, the
    number of objects handed out and the object size. The free list of a
    bucket is threaded through the first word of each free object, in
    physical memory. Descriptors are chained per size from bucket_dir, and
    unused descriptors are chained from free_bucket_desc.

    A descriptor is known by its address. Its chain links are shown as the
    sequence of descriptor addresses the chain visits, in chain order; a
    descriptor that was never written reads as all zeros, like the page it
    lives in. */
module Malloc {
  import opened Proc
  import opened Memory

  /** The sizes of bucket_dir, in order. The entry after them, of size 0,
      ends every scan of the directory. */
  const SIZES: seq<int> := [16, 32, 64, 128, 256, 512, 1024, 2048, 4096]

  /** sizeof(struct bucket_desc). */
  const DESC_BYTES: int := 16

  /** PAGE_SIZE / sizeof(struct bucket_desc): descriptors per page. */
  const DESCS_PER_PAGE: int := 256

  /** refcnt and bucket_size are unsigned shorts. */
  const U16_RANGE: int := 0x1_0000

  /** struct bucket_desc without its next link. */
  datatype Desc = Desc(page: Word, freeptr: Word, refcnt: int, bucketSize: int)

  /** The allocator's state: physical memory with mem_map, the chain of
      each bucket_dir entry, the descriptors by address and the chain of
      free descriptors. */
  datatype Heap = Heap(phys: Phys, chains: seq<seq<int>>, descs: map<int, Desc>, freeDescs: seq<int>)

  predicate HeapOk(h: Heap)
  {
    PhysOk(h.phys) && |h.chains| == |SIZES|
  }

  /** The descriptor at address d. */
  function At(descs: map<int, Desc>, d: int): Desc
  {
    if d in descs then descs[d] else Desc(0, 0, 0, 0)
  }

  /** The bucket sizes grow strictly. */
  lemma SizesIncrease(i: int, j: int)
    requires 0 <= i < j < |SIZES|
    ensures SIZES[i] < SIZES[j]
  {
  }

  // ---------------------------------------------------------------------
  // Choosing a bucket

  /** The first bucket_dir entry from i on whose size is at least len, or
      |SIZES| when the scan reaches the size-0 entry. */
  function BucketFrom(len: Word, i: nat): (r: nat)
    requires i <= |SIZES|
    ensures i <= r <= |SIZES|
    decreases |SIZES| - i
  {
    if i == |SIZES| then i else if SIZES[i] >= len then i else BucketFrom(len, i + 1)
  }

  /** malloc picks the smallest bucket size that holds len bytes, and
      there is none exactly when len exceeds 4096. */
  lemma {:induction false} BucketChoice(len: Word, i: nat)
    requires i <= |SIZES| && (i > 0 ==> SIZES[i - 1] < len)
    ensures var r := BucketFrom(len, i);
      (r < |SIZES| <==> len <= 4096) &&
      (r < |SIZES| ==> len <= SIZES[r] && (r > 0 ==> SIZES[r - 1] < len))
    decreases |SIZES| - i
  {
    if i < |SIZES| && SIZES[i] < len {
      BucketChoice(len, i + 1);
    }
  }

  /** The index of the first descriptor of chain l with a free object, or
      |l| when there is none. */
  function FirstWithSpace(descs: map<int, Desc>, l: seq<int>, k: nat): (r: nat)
    requires k <= |l|
    ensures k <= r <= |l|
    ensures r < |l| ==> At(descs, l[r]).freeptr != 0
    ensures forall j :: k <= j < r ==> At(descs, l[j]).freeptr == 0
    decreases |l| - k
  {
    if k == |l| then k else if At(descs, l[k]).freeptr != 0 then k else FirstWithSpace(descs, l, k + 1)
  }

  // ---------------------------------------------------------------------
  // init_bucket_desc

  /** The addresses of the first n descriptors of a page at p, in order. */
  function DescRun(p: int, n: nat): (r: seq<int>)
    ensures |r| == n
    ensures forall k :: 0 <= k < n ==> r[k] == p + DESC_BYTES * k
  {
    if n == 0 then [] else DescRun(p, n - 1) + [p + DESC_BYTES * (n - 1)]
  }

  /** Descriptors with those in the page at p forgotten: get_free_page has
      zeroed that page. */
  function ForgetPage(descs: map<int, Desc>, p: int): (r: map<int, Desc>)
    ensures forall d :: At(r, d) == if p <= d < p + PAGE then Desc(0, 0, 0, 0) else At(descs, d)
  {
    map d | d in descs && !(p <= d < p + PAGE) :: descs[d]
  }

  /** init_bucket_desc(): a fresh page becomes 256 descriptors chained in
      address order in front of free_bucket_desc. */
  function InitDescs(h: Heap): (r: (Outcome, Heap))
    requires HeapOk(h)
    ensures HeapOk(r.1) && r.1.chains == h.chains
    ensures r.0 == Fine ==> |r.1.freeDescs| > 0
  {
    var (s1, p) := GetFree(h.phys);
    if p == 0 then (Halt("Out of memory in init_bucket_desc()"), h.(phys := s1))
    else (Fine, Heap(s1, h.chains, ForgetPage(h.descs, p), DescRun(p, DESCS_PER_PAGE) + h.freeDescs))
  }

  /** What init_bucket_desc promises: it panics when no page is free;
      otherwise the free page get_free_page chose now holds 256 blank
      descriptors, all distinct, and they head the free-descriptor chain
      in address order, followed by the chain as it was. */
  lemma InitDescsMeans(h: Heap)
    requires HeapOk(h)
    ensures var (o, h') := InitDescs(h); var p := GetFree(h.phys).1;
      (o == Fine <==> p != 0) &&
      (o == Fine ==>
        h'.phys == GetFree(h.phys).0 &&
        h'.freeDescs == DescRun(p, DESCS_PER_PAGE) + h.freeDescs &&
        (forall k :: 0 <= k < DESCS_PER_PAGE ==>
          p <= h'.freeDescs[k] < p + PAGE && At(h'.descs, h'.freeDescs[k]) == Desc(0, 0, 0, 0)) &&
        (forall j, k :: 0 <= j < k < DESCS_PER_PAGE ==> h'.freeDescs[j] < h'.freeDescs[k]))
  {
    var p := GetFree(h.phys).1;
    if p != 0 {
      var run := DescRun(p, DESCS_PER_PAGE);
      assert forall k :: 0 <= k < DESCS_PER_PAGE ==> (run + h.freeDescs)[k] == run[k];
    }
  }

  // ---------------------------------------------------------------------
  // Carving a new bucket page

  /** The rest of the carving loop: with j objects left from cp, each but
      the last links to the next one size bytes on, and the last link is 0. */
  function Carved(mem: map<int, Word>, cp: int, size: int, j: int): map<int, Word>
    requires 0 <= cp && 0 < size && cp + size * j < 0x1_0000_0000
    decreases j
  {
    if j <= 1 then mem[cp := 0] else Carved(mem[cp := cp + size], cp + size, size, j - 1)
  }

  lemma Step(size: int, k: int)
    ensures size * (k + 1) == size * k + size
  {
  }

  /** What the carving promises: a page of n objects of size bytes is one
      free list through the objects' first words in address order, ending
      in 0; nothing outside the objects changes. */
  lemma {:induction false} CarveLinks(mem: map<int, Word>, p: int, size: int, n: int, k: int)
    requires 0 <= p && 0 < size && 1 <= n && p + size * n < 0x1_0000_0000 && 0 <= k < n
    ensures k < n - 1 ==> Read(Carved(mem, p, size, n), p + size * k) == p + size * (k + 1)
    ensures k == n - 1 ==> Read(Carved(mem, p, size, n), p + size * k) == 0
    decreases n
  {
    if n > 1 {
      Step(size, n - 1);
      if k == 0 {
        CarveKeeps(mem[p := p + size], p + size, size, n - 1, p);
      } else {
        Step(size, k - 1);
        Step(size, k);
        CarveLinks(mem[p := p + size], p + size, size, n - 1, k - 1);
      }
    }
  }

  lemma {:induction false} CarveKeeps(mem: map<int, Word>, p: int, size: int, n: int, a: int)
    requires 0 <= p && 0 < size && 1 <= n && p + size * n < 0x1_0000_0000
    requires a < p || p + size * n <= a
    ensures Read(Carved(mem, p, size, n), a) == Read(mem, a)
    decreases n
  {
    if n > 1 {
      Step(size, n - 1);
      CarveKeeps(mem[p := p + size], p + size, size, n - 1, a);
    }
  }

  // ---------------------------------------------------------------------
  // malloc

  /** Hand out the head of descriptor d's free list: freeptr moves to the
      object's link word and refcnt grows by one. */
  function Take(h: Heap, d: int): (r: (Outcome, Word, Heap))
  {
    var desc := At(h.descs, d);
    var obj := desc.freeptr;
    (Fine, obj, h.(descs := h.descs[d := desc.(freeptr := Read(h.phys.mem, obj), refcnt := (desc.refcnt + 1) % U16_RANGE)]))
  }

  /** A bucket of size SIZES[i] on a fresh page p, with descriptor d at the
      head of its chain. */
  function NewBucket(h: Heap, i: int, d: int, p: int): (r: Heap)
    requires HeapOk(h) && 0 <= i < |SIZES| && p % PAGE == 0 && LOW_MEM <= p < MEM_END
    ensures HeapOk(r)
  {
    var size := SIZES[i];
    var n := PAGE / size;
    assert size * n == PAGE;
    Heap(h.phys.(mem := Carved(h.phys.mem, p, size, n)), h.chains[i := [d] + h.chains[i]],
      h.descs[d := Desc(p, p, 0, size)], h.freeDescs)
  }

  /** The branch of malloc where no descriptor of size SIZES[i] has
      room: take the first free descriptor (calling init_bucket_desc
      first when there is none) and a fresh page, and put the new bucket
      at the head of chain i. The int is the descriptor. */
  function Grow(h: Heap, i: int): (r: (Outcome, int, Heap))
    requires HeapOk(h) && 0 <= i < |SIZES|
    ensures HeapOk(r.2)
  {
    var (o1, h1) := if h.freeDescs == [] then InitDescs(h) else (Fine, h);
    if o1 != Fine then (o1, 0, h1)
    else
      var d := h1.freeDescs[0];
      var (s2, p) := GetFree(h1.phys);
      var h2 := h1.(phys := s2, descs := h1.descs[d := Desc(p, p, 0, SIZES[i])], freeDescs := h1.freeDescs[1..]);
      if p == 0 then (Halt("Out of memory in kernel malloc()"), 0, h2)
      else (Fine, d, NewBucket(h2, i, d, p))
  }

  /** malloc(len). The word is the object's address. */
  function MallocSpec(h: Heap, len: Word): (r: (Outcome, Word, Heap))
    requires HeapOk(h)
  {
    var i := BucketFrom(len, 0);
    if i == |SIZES| then (Halt("malloc: bad arg"), 0, h)
    else
      var k := FirstWithSpace(h.descs, h.chains[i], 0);
      if k < |h.chains[i]| then Take(h, h.chains[i][k])
      else
        var (o, d, h3) := Grow(h, i);
        if o != Fine then (o, 0, h3) else Take(h3, d)
  }

  /** A new bucket: its descriptor is the first free one, it heads chain
      i, it owns a page that was free, counts no objects yet, and its free
      list starts at the page's first object, whose link is the second
      object (or 0 for 4096-byte objects). */
  lemma GrowMeans(h: Heap, i: int)
    requires HeapOk(h) && 0 <= i < |SIZES|
    ensures var (o1, h1) := if h.freeDescs == [] then InitDescs(h) else (Fine, h);
      var (o, d, h') := Grow(h, i); var size := SIZES[i];
      o == Fine ==>
        var p := GetFree(h1.phys).1;
        o1 == Fine && d == h1.freeDescs[0] && p != 0 && p % PAGE == 0 &&
        h'.chains == h.chains[i := [d] + h.chains[i]] && h'.freeDescs == h1.freeDescs[1..] &&
        At(h'.descs, d) == Desc(p, p, 0, size) &&
        Read(h'.phys.mem, p) == if size < PAGE then p + size else 0
  {
    var (o1, h1) := if h.freeDescs == [] then InitDescs(h) else (Fine, h);
    if o1 == Fine {
      var (s2, p) := GetFree(h1.phys);
      if p != 0 {
        var size := SIZES[i];
        var n := PAGE / size;
        assert size * n == PAGE;
        CarveLinks(s2.mem, p, size, n, 0);
      }
    }
  }

  /** malloc panics on a request over 4096 bytes and changes nothing. */
  lemma MallocTooLarge(h: Heap, len: Word)
    requires HeapOk(h) && len > 4096
    ensures MallocSpec(h, len) == (Halt("malloc: bad arg"), 0, h)
  {
    BucketChoice(len, 0);
  }

  /** When a descriptor of the chosen size has a free object, malloc takes
      the first such descriptor in its chain, hands out the head of its
      free list and counts it; nothing else changes. */
  lemma MallocPops(h: Heap, len: Word)
    requires HeapOk(h) && len <= 4096
    ensures var i := BucketFrom(len, 0); var l := h.chains[i]; var k := FirstWithSpace(h.descs, l, 0);
      k < |l| ==>
        var (o, r, h') := MallocSpec(h, len); var desc := At(h.descs, l[k]);
        len <= SIZES[i] && o == Fine && r == desc.freeptr && r != 0 &&
        At(h'.descs, l[k]) == desc.(freeptr := Read(h.phys.mem, r), refcnt := (desc.refcnt + 1) % U16_RANGE) &&
        (forall x :: x != l[k] ==> At(h'.descs, x) == At(h.descs, x)) &&
        h'.phys == h.phys && h'.chains == h.chains && h'.freeDescs == h.freeDescs
  {
    BucketChoice(len, 0);
  }

  /** When no descriptor of the chosen size has room, malloc takes the
      first free descriptor (making 256 more first if there is none) and
      a fresh page, puts the descriptor at the head of the size's chain
      and hands out the page's first object; the descriptor then counts
      one object and its free list starts at the second object, or is
      empty for 4096-byte objects. */
  lemma MallocFresh(h: Heap, len: Word)
    requires HeapOk(h) && len <= 4096
    ensures var i := BucketFrom(len, 0); var l := h.chains[i];
      var (o1, h1) := if h.freeDescs == [] then InitDescs(h) else (Fine, h);
      FirstWithSpace(h.descs, l, 0) == |l| && MallocSpec(h, len).0 == Fine ==>
        var (_, r, h') := MallocSpec(h, len); var d := h1.freeDescs[0]; var size := SIZES[i];
        o1 == Fine && r == GetFree(h1.phys).1 && r != 0 && r % PAGE == 0 &&
        h'.chains == h.chains[i := [d] + l] && h'.freeDescs == h1.freeDescs[1..] &&
        At(h'.descs, d) == Desc(r, if size < PAGE then r + size else 0, 1, size)
  {
    BucketChoice(len, 0);
    GrowMeans(h, BucketFrom(len, 0));
  }

  // ---------------------------------------------------------------------
  // free_s

  /** The index in chain l of the first descriptor whose page is page, or |l|. */
  function FindPage(descs: map<int, Desc>, l: seq<int>, page: int, k: nat): (r: nat)
    requires k <= |l|
    ensures k <= r <= |l|
    ensures r < |l| ==> At(descs, l[r]).page == page
    ensures forall j :: k <= j < r ==> At(descs, l[j]).page != page
    decreases |l| - k
  {
    if k == |l| then k else if At(descs, l[k]).page == page then k else FindPage(descs, l, page, k + 1)
  }

  /** The walk down one chain for the descriptor of page. */
  method ScanChain(descs: map<int, Desc>, chain: seq<int>, page: int) returns (k: nat)
    ensures k == FindPage(descs, chain, page, 0)
  {
    k := 0;
    while k < |chain| && At(descs, chain[k]).page != page
      invariant 0 <= k <= |chain| && FindPage(descs, chain, page, k) == FindPage(descs, chain, page, 0)
    {
      k := k + 1;
    }
  }

  /** free_s's search from bucket_dir entry i on: the first entry whose size
      is at least size (every entry when size is 0) with a descriptor for
      page in its chain, and that descriptor's index; (|SIZES|, 0) if none. */
  function Owner(h: Heap, page: int, size: int, i: nat): (r: (nat, nat))
    requires HeapOk(h) && i <= |SIZES|
    ensures i <= r.0 <= |SIZES|
    ensures r.0 < |SIZES| ==> r.1 < |h.chains[r.0]| && At(h.descs, h.chains[r.0][r.1]).page == page && SIZES[r.0] >= size
    decreases |SIZES| - i
  {
    if i == |SIZES| then (i, 0)
    else if SIZES[i] < size then Owner(h, page, size, i + 1)
    else
      var k := FindPage(h.descs, h.chains[i], page, 0);
      if k < |h.chains[i]| then (i, k) else Owner(h, page, size, i + 1)
  }

  /** The chain without its k-th descriptor. */
  function Unlink(l: seq<int>, k: int): (r: seq<int>)
    requires 0 <= k < |l|
    ensures |r| == |l| - 1
  {
    l[..k] + l[k + 1..]
  }

  /** Push obj onto descriptor d's free list: obj's first word takes the
      old head and refcnt drops by one. */
  function Push(h: Heap, d: int, obj: Word): (r: Heap)
  {
    var desc := At(h.descs, d);
    h.(phys := h.phys.(mem := h.phys.mem[obj := desc.freeptr]),
       descs := h.descs[d := desc.(freeptr := obj, refcnt := (desc.refcnt + U16_RANGE - 1) % U16_RANGE)])
  }

  /** free_s(obj, size) with HIGH_MEMORY = high. */
  function FreeSpec(h: Heap, high: int, obj: Word, size: int): (r: (Outcome, Heap))
    requires HeapOk(h) && high <= MEM_END
    ensures HeapOk(r.1)
  {
    var (i, k) := Owner(h, Frame(obj), size, 0);
    if i == |SIZES| then (Halt("Bad address passed to kernel free_s()"), h)
    else
      var d := h.chains[i][k];
      var h1 := Push(h, d, obj);
      if At(h1.descs, d).refcnt != 0 then (Fine, h1)
      else
        var h2 := h1.(chains := h1.chains[i := Unlink(h1.chains[i], k)]);
        var (o, s3) := FreePageSpec(h2.phys, high, At(h2.descs, d).page);
        if o != Fine then (o, h2.(phys := s3))
        else (Fine, h2.(phys := s3, freeDescs := [d] + h2.freeDescs))
  }

  /** free_s panics on an object whose page no descriptor owns. */
  lemma FreeBadAddress(h: Heap, high: int, obj: Word, size: int)
    requires HeapOk(h) && high <= MEM_END
    requires forall i, k :: 0 <= i < |SIZES| && 0 <= k < |h.chains[i]| ==> At(h.descs, h.chains[i][k]).page != Frame(obj)
    ensures FreeSpec(h, high, obj, size) == (Halt("Bad address passed to kernel free_s()"), h)
  {
  }

  /** What free_s promises once it has found obj's descriptor d: obj goes
      on the front of d's free list and d counts one object less; while
      objects remain handed out nothing else changes; when none does, d
      leaves its chain, its page is freed and d heads free_bucket_desc. */
  lemma FreeMeans(h: Heap, high: int, obj: Word, size: int)
    requires HeapOk(h) && high <= MEM_END && Owner(h, Frame(obj), size, 0).0 < |SIZES|
    ensures var (i, k) := Owner(h, Frame(obj), size, 0); var d := h.chains[i][k];
      var desc := At(h.descs, d); var (o, h') := FreeSpec(h, high, obj, size);
      var rc := (desc.refcnt + U16_RANGE - 1) % U16_RANGE;
      desc.page == Frame(obj) && SIZES[i] >= size &&
      Read(h'.phys.mem, obj) == desc.freeptr &&
      At(h'.descs, d) == desc.(freeptr := obj, refcnt := rc) &&
      (forall x :: x != d ==> At(h'.descs, x) == At(h.descs, x)) &&
      (rc != 0 ==>
        o == Fine && h'.chains == h.chains && h'.freeDescs == h.freeDescs && h'.phys.counts == h.phys.counts) &&
      (rc == 0 ==>
        h'.chains == h.chains[i := Unlink(h.chains[i], k)] &&
        (o, h'.phys.counts) == (FreePageSpec(h.phys, high, desc.page).0, FreePageSpec(h.phys, high, desc.page).1.counts) &&
        (o == Fine ==> h'.freeDescs == [d] + h.freeDescs))
  {
  }

  /** free_s undoes malloc's pop: pushing back the object just taken from
      d's free list restores d and every word of memory. */
  lemma TakeThenPush(h: Heap, d: int)
    ensures var (_, obj, h1) := Take(h, d); var h2 := Push(h1, d, obj);
      At(h2.descs, d).freeptr == At(h.descs, d).freeptr &&
      At(h2.descs, d).refcnt == At(h.descs, d).refcnt % U16_RANGE &&
      (forall x :: At(h2.descs, x) == At(h.descs, x) || x == d) &&
      forall a :: Read(h2.phys.mem, a) == Read(h.phys.mem, a)
  {
  }

  /** malloc followed by free_s of the object it returned, when free_s's
      search finds the descriptor malloc took it from and other objects of
      that bucket stay handed out: the descriptors, chains, free
      descriptors and memory are as before. */
  lemma MallocThenFree(h: Heap, high: int, len: Word)
    requires HeapOk(h) && high <= MEM_END && len <= 4096
    requires var i := BucketFrom(len, 0); FirstWithSpace(h.descs, h.chains[i], 0) < |h.chains[i]|
    requires var i := BucketFrom(len, 0); var d := h.chains[i][FirstWithSpace(h.descs, h.chains[i], 0)];
      0 < At(h.descs, d).refcnt < U16_RANGE &&
      var (_, r, h1) := MallocSpec(h, len);
      var (j, k) := Owner(h1, Frame(r), 0, 0); j < |SIZES| && h1.chains[j][k] == d
    ensures var (_, r, h1) := MallocSpec(h, len); var (o, h2) := FreeSpec(h1, high, r, 0);
      o == Fine && h2.chains == h.chains && h2.freeDescs == h.freeDescs && h2.phys.counts == h.phys.counts &&
      (forall x :: At(h2.descs, x) == At(h.descs, x)) &&
      forall a :: Read(h2.phys.mem, a) == Read(h.phys.mem, a)
  {
    BucketChoice(len, 0);
    var i := BucketFrom(len, 0);
    var d := h.chains[i][FirstWithSpace(h.descs, h.chains[i], 0)];
    TakeThenPush(h, d);
  }

  // ---------------------------------------------------------------------
  // The state

  /** bucket_dir's chains, the descriptors and free_bucket_desc, over the
      pages of mm. */
  class Kmalloc {
    const mm: Mm
    var chains: seq<seq<int>>
    var descs: map<int, Desc>
    var freeDescs: seq<int>

    ghost predicate Valid()
      reads this, mm
    {
      mm.Valid() && |chains| == |SIZES|
    }

    function Snap(): (h: Heap)
      reads this, mm, mm.memMap
      requires Valid()
      ensures HeapOk(h)
    {
      Heap(mm.Snap(), chains, descs, freeDescs)
    }

    /** The static initial state: every chain empty, no free descriptors. */
    constructor (m: Mm)
      requires m.Valid()
      ensures Valid() && mm == m && chains == seq(|SIZES|, _ => []) && descs == map[] && freeDescs == []
    {
      mm := m;
      chains := seq(|SIZES|, _ => []);
      descs := map[];
      freeDescs := [];
    }

    /** init_bucket_desc() */
    method InitBucketDesc() returns (o: Outcome)
      requires Valid()
      modifies this, mm`mem, mm.memMap
      ensures Valid() && (o, Snap()) == InitDescs(old(Snap()))
    {
      var first := mm.GetFreePage();
      if first == 0 {
        return Halt("Out of memory in init_bucket_desc()");
      }
      descs := ForgetPage(descs, first);
      var run: seq<int> := [];
      var bdesc := first;
      var i := DESCS_PER_PAGE;
      while i > 1
        invariant 1 <= i <= DESCS_PER_PAGE && |run| == DESCS_PER_PAGE - i
        invariant run == DescRun(first, |run|) && bdesc == first + DESC_BYTES * |run|
      {
        run := run + [bdesc];
        bdesc := bdesc + DESC_BYTES;
        i := i - 1;
      }
      freeDescs := run + [bdesc] + freeDescs;
      o := Fine;
    }

    /** Carve the page at p into objects of the given size. */
    method Carve(p: int, size: int)
      requires Valid() && size in SIZES && p % PAGE == 0 && LOW_MEM <= p < MEM_END
      modifies mm`mem
      ensures Valid() && mm.mem == Carved(old(mm.mem), p, size, PAGE / size)
    {
      var n := PAGE / size;
      assert size * n == PAGE;
      var cp := p;
      var j := n;
      while j > 1
        invariant 1 <= j && 0 <= cp && cp + size * j < 0x1_0000_0000
        invariant Carved(old(mm.mem), p, size, n) == Carved(mm.mem, cp, size, j)
      {
        Step(size, j - 1);
        mm.mem := mm.mem[cp := cp + size];
        cp := cp + size;
        j := j - 1;
      }
      mm.mem := mm.mem[cp := 0];
    }

    /** The branch of malloc that starts a new bucket of size SIZES[i]. */
    method NewBucketFor(i: int) returns (o: Outcome, d: int)
      requires Valid() && 0 <= i < |SIZES|
      modifies this, mm`mem, mm.memMap
      ensures Valid() && (o, d, Snap()) == Grow(old(Snap()), i)
    {
      if freeDescs == [] {
        o := InitBucketDesc();
        if o != Fine {
          return o, 0;
        }
      }
      ghost var h1 := Snap();
      assert h1 == (if old(Snap()).freeDescs == [] then InitDescs(old(Snap())) else (Fine, old(Snap()))).1;
      d := freeDescs[0];
      freeDescs := freeDescs[1..];
      var p := mm.GetFreePage();
      descs := descs[d := Desc(p, p, 0, SIZES[i])];
      ghost var h2 := Snap();
      assert h2 == h1.(phys := GetFree(h1.phys).0, descs := h1.descs[d := Desc(p, p, 0, SIZES[i])], freeDescs := h1.freeDescs[1..]);
      if p == 0 {
        return Halt("Out of memory in kernel malloc()"), 0;
      }
      Carve(p, SIZES[i]);
      chains := chains[i := [d] + chains[i]];
      assert Snap() == NewBucket(h2, i, d, p);
      o := Fine;
    }

    /** malloc(len) */
    method Malloc(len: Word) returns (o: Outcome, r: Word)
      requires Valid()
      modifies this, mm`mem, mm.memMap
      ensures Valid() && (o, r, Snap()) == MallocSpec(old(Snap()), len)
    {
      var i := 0;
      while i < |SIZES| && SIZES[i] < len
        invariant 0 <= i <= |SIZES| && BucketFrom(len, i) == BucketFrom(len, 0)
      {
        i := i + 1;
      }
      if i == |SIZES| {
        return Halt("malloc: bad arg"), 0;
      }
      var chain := chains[i];
      var k := 0;
      while k < |chain| && At(descs, chain[k]).freeptr == 0
        invariant 0 <= k <= |chain| && FirstWithSpace(descs, chain, k) == FirstWithSpace(descs, chain, 0)
      {
        k := k + 1;
      }
      var d;
      if k < |chain| {
        d := chain[k];
      } else {
        o, d := NewBucketFor(i);
        if o != Fine {
          return o, 0;
        }
      }
      var desc := At(descs, d);
      r := desc.freeptr;
      descs := descs[d := desc.(freeptr := Read(mm.mem, r), refcnt := (desc.refcnt + 1) % U16_RANGE)];
      o := Fine;
    }

    /** free_s's search of bucket_dir: from the first size that fits, the
        first chain holding a descriptor of page, and its place there. */
    method FindOwner(page: int, size: int) returns (i: nat, k: nat)
      requires Valid()
      ensures (i, k) == Owner(Snap(), page, size, 0)
    {
      ghost var h := Snap();
      i := 0;
      k := 0;
      while i < |SIZES|
        invariant 0 <= i <= |SIZES| && Owner(h, page, size, i) == Owner(h, page, size, 0)
      {
        if SIZES[i] >= size {
          k := ScanChain(descs, chains[i], page);
          if k < |chains[i]| {
            return;
          }
        }
        i := i + 1;
      }
      k := 0;
    }

    /** free_s(obj, size) */
    method FreeS(obj: Word, size: int) returns (o: Outcome)
      requires Valid()
      modifies this, mm`mem, mm.memMap
      ensures Valid() && (o, Snap()) == FreeSpec(old(Snap()), mm.highMemory, obj, size)
    {
      var i, k := FindOwner(Frame(obj), size);
      if i == |SIZES| {
        return Halt("Bad address passed to kernel free_s()");
      }
      var d := chains[i][k];
      var desc := At(descs, d);
      mm.mem := mm.mem[obj := desc.freeptr];
      desc := desc.(freeptr := obj, refcnt := (desc.refcnt + U16_RANGE - 1) % U16_RANGE);
      descs := descs[d := desc];
      if desc.refcnt == 0 {
        chains := chains[i := Unlink(chains[i], k)];
        o := mm.FreePage(desc.page);
        if o != Fine {
          return;
        }
        freeDescs := [d] + freeDescs;
      }
      o := Fine;
    }
  }
}
