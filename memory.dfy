/** The physical-page bookkeeping of mm/memory.c: mem_map, one byte of
    reference count for each 4 KB page between LOW_MEM (1 MB) and 16 MB,
    and the page directory and page tables, which live in physical memory
    themselves. Physical memory is shown as the 32-bit words it holds, by
    byte address; an address that is not in the map holds 0. The page
    directory is at physical address 0. The TLB flush (invalidate) has no
    effect in the model. */
module Memory {
  import opened Proc

  const LOW_MEM: int := 0x10_0000
  const PAGE: int := 4096
  /** PAGING_MEMORY >> 12: the pages mem_map covers. */
  const PAGING_PAGES: int := 15 * 1024 * 1024 / PAGE
  const USED: int := 100
  /** LOW_MEM + PAGING_MEMORY: the first address mem_map does not cover. */
  const MEM_END: int := LOW_MEM + PAGING_PAGES * PAGE

  /** How a call ends: normally; out of memory (copy_page_tables returns -1
      there, un_wp_page and try_to_share call oom(), which kills the
      current task); or with a kernel panic. */
  datatype Outcome = Fine | Oom | Halt(msg: string)

  /** One mem_map entry: an unsigned char. */
  type Count = x: int | 0 <= x < 256

  /** mem_map and the contents of physical memory. */
  datatype Phys = Phys(counts: seq<Count>, mem: map<int, Word>)

  predicate PhysOk(s: Phys)
  {
    |s.counts| == PAGING_PAGES
  }

  /** MAP_NR(addr) */
  function MapNr(addr: int): int
  {
    (addr - LOW_MEM) / PAGE
  }

  /** The physical address of the page mem_map[i] counts. */
  function PageAt(i: int): int
  {
    LOW_MEM + PAGE * i
  }

  /** The word at physical address a. */
  function Read(mem: map<int, Word>, a: int): Word
  {
    if a in mem then mem[a] else 0
  }

  /** The present bit of a directory or page-table entry. */
  predicate Present(e: int)
  {
    e % 2 == 1
  }

  /** e & 0xfffff000: the page an entry points to. */
  function Frame(e: Word): (r: Word)
    ensures r % PAGE == 0 && r <= e < r + PAGE
  {
    e - e % PAGE
  }

  /** e & ~2: the entry with its R/W bit cleared. */
  function ReadOnly(e: Word): (r: Word)
    ensures Frame(r) == Frame(e) && (Present(r) <==> Present(e)) && (r / 2) % 2 == 0
  {
    if (e / 2) % 2 == 1 then
      RwBit(e - 2);
      e - 2
    else e
  }

  /** e | 2: the entry with its R/W bit set. */
  function Writable(e: Word): (r: Word)
    ensures Frame(r) == Frame(e) && (Present(r) <==> Present(e)) && (r / 2) % 2 == 1
  {
    if (e / 2) % 2 == 1 then e
    else
      RwBit(e);
      e + 2
  }

  /** Setting the R/W bit of an entry e that has it clear adds 2 and
      changes neither its frame nor its present bit. */
  lemma RwBit(e: int)
    requires 0 <= e && (e / 2) % 2 == 0
    ensures (e + 2) / PAGE == e / PAGE && (e + 2) % PAGE == e % PAGE + 2
    ensures (e + 2) % 2 == e % 2 && ((e + 2) / 2) % 2 == 1
  {
    var b, h := e % 2, e / 2;
    HalfSplit(e, h, b);
    var j := h / 2;
    HalfSplit(h, j, 0);
    var k, m := j / 1024, j % 1024;
    assert j == 1024 * k + m;
    assert e == 4096 * k + (4 * m + b);
    PageSplit(e, k, 4 * m + b);
    PageSplit(e + 2, k, 4 * m + b + 2);
    HalfSplit(e + 2, 2 * j + 1, b);
  }

  /** x = PAGE * q + r with 0 <= r < PAGE: q and r are x's quotient and remainder. */
  lemma PageSplit(x: int, q: int, r: int)
    requires 0 <= r < PAGE && x == PAGE * q + r
    ensures x / PAGE == q && x % PAGE == r
  {
  }

  /** x = 2 * q + r with 0 <= r < 2: q and r are x's quotient and remainder. */
  lemma HalfSplit(x: int, q: int, r: int)
    requires 0 <= r < 2 && x == 2 * q + r
    ensures x / 2 == q && x % 2 == r
  {
  }

  /** (e & 0x41) == 0x01: present and not dirty. */
  predicate Clean(e: int)
  {
    e % 2 == 1 && (e / 64) % 2 == 0
  }

  /** (a >> 20) & 0xffc: the byte offset of a's entry in the page directory. */
  function DirSlot(a: int): int
  {
    ((a / 0x40_0000) % 1024) * 4
  }

  /** (a >> 10) & 0xffc: the byte offset of a's entry in its page table. */
  function TabSlot(a: int): int
  {
    ((a / PAGE) % 1024) * 4
  }

  /** mem_map[i]++ on an unsigned char. A page at or above 16 MB has no
      byte in mem_map; the model leaves mem_map unchanged for it. */
  function Bump(c: seq<Count>, i: int): (r: seq<Count>)
    ensures |r| == |c|
  {
    if 0 <= i < |c| then c[i := (c[i] as int + 1) % 256] else c
  }

  /** mem_map[i]-- on an unsigned char. */
  function Drop(c: seq<Count>, i: int): (r: seq<Count>)
    ensures |r| == |c|
  {
    if 0 <= i < |c| then c[i := (c[i] as int + 255) % 256] else c
  }

  /** Memory with the page at p filled with zeros (rep stosl). */
  function Cleared(mem: map<int, Word>, p: int): (r: map<int, Word>)
  {
    map a | a in mem && !(p <= a < p + PAGE) :: mem[a]
  }

  /** Memory with the page at `from` copied onto the page at `to` (copy_page). */
  function CopyPage(mem: map<int, Word>, from: int, to: int): (r: map<int, Word>)
  {
    map a | a in mem.Keys + Span(to, PAGE) ::
      if to <= a < to + PAGE then Read(mem, a - to + from) else mem[a]
  }

  /** The addresses [p, p + n). */
  function Span(p: int, n: nat): (r: set<int>)
    ensures forall a :: a in r <==> p <= a < p + n
  {
    if n == 0 then {} else Span(p, n - 1) + {p + n - 1}
  }

  lemma ClearedRead(mem: map<int, Word>, p: int, a: int)
    ensures Read(Cleared(mem, p), a) == if p <= a < p + PAGE then 0 else Read(mem, a)
  {
  }

  lemma CopyPageRead(mem: map<int, Word>, from: int, to: int, a: int)
    ensures Read(CopyPage(mem, from, to), a) == if to <= a < to + PAGE then Read(mem, a - to + from) else Read(mem, a)
  {
  }

  // ---------------------------------------------------------------------
  // get_free_page, free_page, mem_init

  /** The highest index below n whose count is 0, or -1. */
  function HighestFree(c: seq<Count>, n: nat): (r: int)
    requires n <= |c|
    ensures -1 <= r < n
    ensures r >= 0 ==> c[r] == 0 && forall j :: r < j < n ==> c[j] != 0
    ensures r < 0 ==> forall j :: 0 <= j < n ==> c[j] != 0
  {
    if n == 0 then -1 else if c[n - 1] == 0 then n - 1 else HighestFree(c, n - 1)
  }

  /** get_free_page(): scanning mem_map downwards, take the last free page,
      count it once, zero it and return its address; 0 when none is free. */
  function GetFree(s: Phys): (r: (Phys, int))
    requires PhysOk(s)
    ensures PhysOk(r.0)
    ensures r.1 == 0 || (r.1 % PAGE == 0 && LOW_MEM <= r.1 < MEM_END)
  {
    var i := HighestFree(s.counts, PAGING_PAGES);
    if i < 0 then (s, 0) else (Phys(s.counts[i := 1], Cleared(s.mem, PageAt(i))), PageAt(i))
  }

  /** free_page(addr) with HIGH_MEMORY = high. */
  function FreePageSpec(s: Phys, high: int, addr: int): (r: (Outcome, Phys))
    requires PhysOk(s) && high <= MEM_END
    ensures PhysOk(r.1) && r.1.mem == s.mem
  {
    if addr < LOW_MEM then (Fine, s)
    else if addr >= high then (Halt("trying to free nonexistent page"), s)
    else
      var i := MapNr(addr);
      if s.counts[i] != 0 then (Fine, s.(counts := s.counts[i := s.counts[i] - 1]))
      else (Halt("trying to free free page"), s)
  }

  /** What get_free_page promises: the page it returns is the highest free
      one, it now has one reference and reads as zeros, and no other count
      changes; it returns 0 exactly when every page is in use. */
  lemma GetFreeTakesHighest(s: Phys)
    requires PhysOk(s)
    ensures var (s', p) := GetFree(s);
      (p == 0 <==> forall j :: 0 <= j < PAGING_PAGES ==> s.counts[j] != 0) &&
      (p == 0 ==> s' == s) &&
      (p != 0 ==>
        var i := MapNr(p);
        0 <= i < PAGING_PAGES && p == PageAt(i) && s.counts[i] == 0 &&
        (forall j :: i < j < PAGING_PAGES ==> s.counts[j] != 0) &&
        s'.counts == s.counts[i := 1] &&
        (forall a :: p <= a < p + PAGE ==> Read(s'.mem, a) == 0) &&
        (forall a :: !(p <= a < p + PAGE) ==> Read(s'.mem, a) == Read(s.mem, a)))
  {
    var i := HighestFree(s.counts, PAGING_PAGES);
    if i >= 0 {
      assert MapNr(PageAt(i)) == i;
      forall a ensures Read(GetFree(s).0.mem, a) == if PageAt(i) <= a < PageAt(i) + PAGE then 0 else Read(s.mem, a) {
        ClearedRead(s.mem, PageAt(i), a);
      }
    }
  }

  /** Freeing a page that get_free_page has just handed out gives back
      the reference counts as they were. */
  lemma GetThenFree(s: Phys, high: int)
    requires PhysOk(s) && high <= MEM_END
    requires GetFree(s).1 != 0 && GetFree(s).1 < high
    ensures FreePageSpec(GetFree(s).0, high, GetFree(s).1).0 == Fine
    ensures FreePageSpec(GetFree(s).0, high, GetFree(s).1).1.counts == s.counts
  {
    var i := HighestFree(s.counts, PAGING_PAGES);
    assert MapNr(PageAt(i)) == i;
    assert s.counts[i := 1][i := 0] == s.counts;
  }

  /** Freeing a page whose count is already 0 panics. */
  lemma FreeFreePanics(s: Phys, high: int, addr: int)
    requires PhysOk(s) && high <= MEM_END && LOW_MEM <= addr < high && s.counts[MapNr(addr)] == 0
    ensures FreePageSpec(s, high, addr).0 == Halt("trying to free free page")
  {
  }

  /** The number of whole pages between start and end ((end-start) >> 12). */
  function Pages(start: int, end: int): int
  {
    (end - start) / PAGE
  }

  /** mem_map after mem_init(start, end): USED everywhere except the
      Pages(start, end) pages from MAP_NR(start) on, which are free. */
  function InitCounts(start: int, end: int): (r: seq<Count>)
    ensures |r| == PAGING_PAGES
  {
    seq(PAGING_PAGES, i => if MapNr(start) <= i < MapNr(start) + Pages(start, end) then 0 else USED)
  }

  /** After mem_init, the first page get_free_page hands out is the last
      whole page of main memory, and one page is free exactly when it lies
      in [start_mem, end_mem). */
  lemma InitThenGetFree(start: int, end: int, mem: map<int, Word>)
    requires start % PAGE == 0 && LOW_MEM <= start && start + PAGE <= end <= MEM_END
    ensures PhysOk(Phys(InitCounts(start, end), mem))
    ensures GetFree(Phys(InitCounts(start, end), mem)).1 == end - end % PAGE - PAGE
    ensures forall i :: 0 <= i < PAGING_PAGES ==>
      (InitCounts(start, end)[i] == 0 <==> start <= PageAt(i) && PageAt(i) + PAGE <= end)
  {
    var c := InitCounts(start, end);
    var n := Pages(start, end);
    var m := MapNr(start);
    assert PageAt(m) == start;
    assert start + PAGE * n <= end < start + PAGE * n + PAGE;
    assert m + n <= PAGING_PAGES;
    assert c[m + n - 1] == 0;
    assert HighestFree(c, PAGING_PAGES) == m + n - 1;
    assert PageAt(m + n - 1) == start + PAGE * n - PAGE;
    assert end - end % PAGE == start + PAGE * n;
    forall i | 0 <= i < PAGING_PAGES
      ensures c[i] == 0 <==> start <= PageAt(i) && PageAt(i) + PAGE <= end
    {
      assert PageAt(i) == start + PAGE * (i - m);
    }
  }

  // ---------------------------------------------------------------------
  // free_page_tables

  /** (size + 0x3fffff) >> 22 in unsigned arithmetic: the page tables a
      range of size bytes spans. */
  function Tables(size: int): int
  {
    ToWord(size + 0x3f_ffff) / 0x40_0000
  }

  /** One pass of free_page_tables' inner loop on the entry at a: free the
      page a present entry points to, then clear the entry. */
  function FreeEntry(s: Phys, high: int, a: int): (r: (Outcome, Phys))
    requires PhysOk(s) && high <= MEM_END
    ensures PhysOk(r.1)
  {
    var e := Read(s.mem, a);
    if Present(e) then
      var (o, s1) := FreePageSpec(s, high, Frame(e));
      if o != Fine then (o, s1) else (Fine, s1.(mem := s1.mem[a := 0]))
    else (Fine, s.(mem := s.mem[a := 0]))
  }

  /** The first n passes of the inner loop over the page table at t. */
  function FreeTableRun(s: Phys, high: int, t: int, n: nat): (r: (Outcome, Phys))
    requires PhysOk(s) && high <= MEM_END
    ensures PhysOk(r.1)
  {
    if n == 0 then (Fine, s)
    else
      var (o, s1) := FreeTableRun(s, high, t, n - 1);
      if o != Fine then (o, s1) else FreeEntry(s1, high, t + 4 * (n - 1))
  }

  /** One pass of the outer loop on the directory entry at d: a present
      entry has its page table emptied, the table's page freed (the entry
      is read again for that) and the entry cleared. */
  function FreeDir(s: Phys, high: int, d: int): (r: (Outcome, Phys))
    requires PhysOk(s) && high <= MEM_END
    ensures PhysOk(r.1)
  {
    var e := Read(s.mem, d);
    if !Present(e) then (Fine, s)
    else
      var (o, s1) := FreeTableRun(s, high, Frame(e), 1024);
      if o != Fine then (o, s1)
      else
        var (o2, s2) := FreePageSpec(s1, high, Frame(Read(s1.mem, d)));
        if o2 != Fine then (o2, s2) else (Fine, s2.(mem := s2.mem[d := 0]))
  }

  /** The first n passes of the outer loop from the directory entry at d. */
  function FreeDirRun(s: Phys, high: int, d: int, n: nat): (r: (Outcome, Phys))
    requires PhysOk(s) && high <= MEM_END
    ensures PhysOk(r.1)
  {
    if n == 0 then (Fine, s)
    else
      var (o, s1) := FreeDirRun(s, high, d, n - 1);
      if o != Fine then (o, s1) else FreeDir(s1, high, d + 4 * (n - 1))
  }

  /** free_page_tables(from, size). */
  function FreeTables(s: Phys, high: int, from: Word, size: Word): (r: (Outcome, Phys))
    requires PhysOk(s) && high <= MEM_END
    ensures PhysOk(r.1)
  {
    if from % 0x40_0000 != 0 then (Halt("free_page_tables called with wrong alignment"), s)
    else if from == 0 then (Halt("Trying to free up swapper memory space"), s)
    else FreeDirRun(s, high, DirSlot(from), Tables(size))
  }

  /** s' comes from s by clearing words and lowering counts only. */
  ghost predicate OnlyCleared(s: Phys, s': Phys)
  {
    |s'.counts| == |s.counts| &&
    (forall i :: 0 <= i < |s.counts| ==> s'.counts[i] <= s.counts[i]) &&
    WordsCleared(s.mem, s'.mem)
  }

  /** Every word of m' is as in m or zero. */
  ghost predicate WordsCleared(m: map<int, Word>, m': map<int, Word>)
  {
    forall a :: Read(m', a) == Read(m, a) || Read(m', a) == 0
  }

  lemma OnlyClearedTrans(s: Phys, s1: Phys, s2: Phys)
    requires OnlyCleared(s, s1) && OnlyCleared(s1, s2)
    ensures OnlyCleared(s, s2)
  {
    forall a ensures Read(s2.mem, a) == Read(s.mem, a) || Read(s2.mem, a) == 0 {
      assert Read(s1.mem, a) == Read(s.mem, a) || Read(s1.mem, a) == 0;
    }
  }

  /** An entry that is not present stays so while words are only cleared. */
  lemma AbsentStays(s: Phys, s': Phys, a: int)
    requires OnlyCleared(s, s') && !Present(Read(s.mem, a))
    ensures !Present(Read(s'.mem, a))
  {
    assert Read(s'.mem, a) == Read(s.mem, a) || Read(s'.mem, a) == 0;
  }

  lemma ZeroStore(s: Phys, a: int)
    ensures OnlyCleared(s, s.(mem := s.mem[a := 0]))
  {
  }

  lemma FreePageClears(s: Phys, high: int, addr: int)
    requires PhysOk(s) && high <= MEM_END
    ensures OnlyCleared(s, FreePageSpec(s, high, addr).1)
  {
  }

  lemma FreeEntryClears(s: Phys, high: int, a: int)
    requires PhysOk(s) && high <= MEM_END
    ensures OnlyCleared(s, FreeEntry(s, high, a).1)
  {
    var e := Read(s.mem, a);
    var s1 := if Present(e) then FreePageSpec(s, high, Frame(e)).1 else s;
    FreePageClears(s, high, Frame(e));
    ZeroStore(s1, a);
    OnlyClearedTrans(s, s1, s1.(mem := s1.mem[a := 0]));
  }

  lemma FreeTableRunStep(s: Phys, high: int, t: int, n: nat)
    requires PhysOk(s) && high <= MEM_END && n > 0
    ensures var r := FreeTableRun(s, high, t, n - 1);
      FreeTableRun(s, high, t, n) == if r.0 != Fine then r else FreeEntry(r.1, high, t + 4 * (n - 1))
  {
  }

  lemma FreeTableRunClearsStep(s: Phys, high: int, t: int, n: nat)
    requires PhysOk(s) && high <= MEM_END && n > 0 && OnlyCleared(s, FreeTableRun(s, high, t, n - 1).1)
    ensures OnlyCleared(s, FreeTableRun(s, high, t, n).1)
  {
    var r := FreeTableRun(s, high, t, n - 1);
    FreeTableRunStep(s, high, t, n);
    if r.0 == Fine {
      var r' := FreeEntry(r.1, high, t + 4 * (n - 1));
      FreeEntryClears(r.1, high, t + 4 * (n - 1));
      OnlyClearedTrans(s, r.1, r'.1);
    }
  }

  lemma {:induction false} FreeTableRunClears(s: Phys, high: int, t: int, n: nat)
    requires PhysOk(s) && high <= MEM_END
    ensures OnlyCleared(s, FreeTableRun(s, high, t, n).1)
  {
    if n > 0 {
      FreeTableRunClears(s, high, t, n - 1);
      FreeTableRunClearsStep(s, high, t, n);
    }
  }

  lemma FreeDirClears(s: Phys, high: int, d: int)
    requires PhysOk(s) && high <= MEM_END
    ensures OnlyCleared(s, FreeDir(s, high, d).1)
    ensures FreeDir(s, high, d).0 == Fine ==> !Present(Read(FreeDir(s, high, d).1.mem, d))
  {
    var e := Read(s.mem, d);
    if Present(e) {
      FreeTableRunClears(s, high, Frame(e), 1024);
      var (o, s1) := FreeTableRun(s, high, Frame(e), 1024);
      if o == Fine {
        var p := Frame(Read(s1.mem, d));
        FreePageClears(s1, high, p);
        OnlyClearedTrans(s, s1, FreePageSpec(s1, high, p).1);
        var s2 := FreePageSpec(s1, high, p).1;
        ZeroStore(s2, d);
        OnlyClearedTrans(s, s2, s2.(mem := s2.mem[d := 0]));
      }
    }
  }

  /** The outer loop only clears words and lowers counts, and when it
      completes none of the n directory entries it visited is present:
      a present one was cleared, and every later store writes 0 too. */
  lemma {:induction false} FreeDirRunClears(s: Phys, high: int, d: int, n: nat)
    requires PhysOk(s) && high <= MEM_END
    ensures OnlyCleared(s, FreeDirRun(s, high, d, n).1)
    ensures FreeDirRun(s, high, d, n).0 == Fine ==>
      forall j :: 0 <= j < n ==> !Present(Read(FreeDirRun(s, high, d, n).1.mem, d + 4 * j))
  {
    if n > 0 {
      FreeDirRunClears(s, high, d, n - 1);
      var (o, s1) := FreeDirRun(s, high, d, n - 1);
      if o == Fine {
        var a := d + 4 * (n - 1);
        FreeDirClears(s1, high, a);
        var s2 := FreeDir(s1, high, a).1;
        OnlyClearedTrans(s, s1, s2);
        if FreeDir(s1, high, a).0 == Fine {
          forall j | 0 <= j < n - 1
            ensures !Present(Read(s2.mem, d + 4 * j))
          {
            AbsentStays(s1, s2, d + 4 * j);
          }
        }
      }
    }
  }

  /** What free_page_tables promises: it panics on a range that is not 4 MB
      aligned or that starts at 0; otherwise it only ever clears words of
      memory and lowers reference counts, and when it returns, no directory
      entry of the range is present any more. */
  lemma FreeTablesMeans(s: Phys, high: int, from: Word, size: Word)
    requires PhysOk(s) && high <= MEM_END
    ensures from % 0x40_0000 != 0 || from == 0 ==> FreeTables(s, high, from, size).0.Halt?
    ensures OnlyCleared(s, FreeTables(s, high, from, size).1)
    ensures FreeTables(s, high, from, size).0 == Fine ==>
      forall j :: 0 <= j < Tables(size) ==>
        !Present(Read(FreeTables(s, high, from, size).1.mem, DirSlot(from) + 4 * j))
  {
    if from % 0x40_0000 == 0 && from != 0 {
      FreeDirRunClears(s, high, DirSlot(from), Tables(size));
    }
  }

  /** A range whose directory entries are all absent is left as it is. */
  lemma {:induction false} FreeDirRunIdle(s: Phys, high: int, d: int, n: nat)
    requires PhysOk(s) && high <= MEM_END
    requires forall j :: 0 <= j < n ==> !Present(Read(s.mem, d + 4 * j))
    ensures FreeDirRun(s, high, d, n) == (Fine, s)
  {
    if n > 0 {
      FreeDirRunIdle(s, high, d, n - 1);
      assert !Present(Read(s.mem, d + 4 * (n - 1)));
    }
  }

  /** Once a pass fails, the remaining passes change nothing. */
  lemma {:induction false} FreeTableRunStops(s: Phys, high: int, t: int, n: nat, m: nat)
    requires PhysOk(s) && high <= MEM_END && n <= m
    requires FreeTableRun(s, high, t, n).0 != Fine
    ensures FreeTableRun(s, high, t, m) == FreeTableRun(s, high, t, n)
    decreases m
  {
    if m > n {
      FreeTableRunStops(s, high, t, n, m - 1);
    }
  }

  /** One more pass of free_page_tables' outer loop after k passes that
      went well. */
  lemma FreeDirRunNext(s: Phys, high: int, d: int, k: nat, s1: Phys, r: (Outcome, Phys))
    requires PhysOk(s) && high <= MEM_END && FreeDirRun(s, high, d, k) == (Fine, s1)
    requires r == FreeDir(s1, high, d + 4 * k)
    ensures FreeDirRun(s, high, d, k + 1) == r
  {
  }

  lemma {:induction false} FreeDirRunStops(s: Phys, high: int, d: int, n: nat, m: nat)
    requires PhysOk(s) && high <= MEM_END && n <= m
    requires FreeDirRun(s, high, d, n).0 != Fine
    ensures FreeDirRun(s, high, d, m) == FreeDirRun(s, high, d, n)
    decreases m
  {
    if m > n {
      FreeDirRunStops(s, high, d, n, m - 1);
    }
  }

  // ---------------------------------------------------------------------
  // copy_page_tables

  /** One pass of copy_page_tables' inner loop, from the entry at src to the
      entry at dst: a present entry is copied write-protected; when it
      points above LOW_MEM the source entry is write-protected as well and
      the page gains a reference. */
  function CopyEntry(s: Phys, src: int, dst: int): (r: Phys)
    requires PhysOk(s)
    ensures PhysOk(r)
  {
    var e := Read(s.mem, src);
    if !Present(e) then s
    else
      var p := ReadOnly(e);
      var m1 := s.mem[dst := p];
      if p > LOW_MEM then Phys(Bump(s.counts, MapNr(p)), m1[src := p]) else s.(mem := m1)
  }

  /** The first n passes of the inner loop from table f to table t. */
  function CopyTableRun(s: Phys, f: int, t: int, n: nat): (r: Phys)
    requires PhysOk(s)
    ensures PhysOk(r)
  {
    if n == 0 then s else CopyEntry(CopyTableRun(s, f, t, n - 1), f + 4 * (n - 1), t + 4 * (n - 1))
  }

  /** The entries copy_page_tables copies from one table: 160 (640 KB) for
      the kernel's first fork from address 0, a whole table otherwise. */
  function CopyCount(from: int): int
  {
    if from == 0 then 0xA0 else 1024
  }

  /** One pass of the outer loop, from the directory entry at fd to the one
      at td. */
  function CopyDir(s: Phys, from: int, fd: int, td: int): (r: (Outcome, Phys))
    requires PhysOk(s)
    ensures PhysOk(r.1)
  {
    if Present(Read(s.mem, td)) then (Halt("copy_page_tables: already exist"), s)
    else if !Present(Read(s.mem, fd)) then (Fine, s)
    else
      var f := Frame(Read(s.mem, fd));
      var (s1, t) := GetFree(s);
      if t == 0 then (Oom, s1)
      else (Fine, CopyTableRun(s1.(mem := s1.mem[td := t + 7]), f, t, CopyCount(from)))
  }

  function CopyDirRun(s: Phys, from: int, fd: int, td: int, n: nat): (r: (Outcome, Phys))
    requires PhysOk(s)
    ensures PhysOk(r.1)
  {
    if n == 0 then (Fine, s)
    else
      var (o, s1) := CopyDirRun(s, from, fd, td, n - 1);
      if o != Fine then (o, s1) else CopyDir(s1, from, fd + 4 * (n - 1), td + 4 * (n - 1))
  }

  /** copy_page_tables(from, to, size); Oom stands for its return of -1. */
  function CopyTables(s: Phys, from: Word, to: Word, size: int): (r: (Outcome, Phys))
    requires PhysOk(s)
    ensures PhysOk(r.1)
  {
    if from % 0x40_0000 != 0 || to % 0x40_0000 != 0 then (Halt("copy_page_tables called with wrong alignment"), s)
    else CopyDirRun(s, from, DirSlot(from), DirSlot(to), Tables(size))
  }

  /** How many of the first n entries of table f point, present and above
      LOW_MEM, to the page mem_map[i] counts. */
  function Refs(mem: map<int, Word>, f: int, n: nat, i: int): (r: nat)
  {
    if n == 0 then 0
    else
      var e := Read(mem, f + 4 * (n - 1));
      Refs(mem, f, n - 1, i) + if Present(e) && ReadOnly(e) > LOW_MEM && MapNr(ReadOnly(e)) == i then 1 else 0
  }

  /** Two page tables that do not overlap. */
  predicate Apart(f: int, t: int)
  {
    f + PAGE <= t || t + PAGE <= f
  }

  /** What the inner loop of copy_page_tables does to two separate page
      tables: every present entry among the first n is copied with its R/W
      bit cleared, absent ones are skipped; a source entry pointing above
      LOW_MEM loses its R/W bit too. */
  lemma CopyTableMeans(s: Phys, f: int, t: int, n: nat, k: int)
    requires PhysOk(s) && Apart(f, t) && n <= 1024 && 0 <= k < n
    ensures var e := Read(s.mem, f + 4 * k); var s' := CopyTableRun(s, f, t, n);
      Read(s'.mem, t + 4 * k) == (if Present(e) then ReadOnly(e) else Read(s.mem, t + 4 * k)) &&
      Read(s'.mem, f + 4 * k) == (if Present(e) && ReadOnly(e) > LOW_MEM then ReadOnly(e) else e)
  {
    CopyTableFrame(s, f, t, k, k);
    CopyTableRunAt(s, f, t, k);
    CopyTableLater(s, f, t, k + 1, n, k);
  }

  /** Entry j (at or after k) is still as it was after k passes. */
  lemma {:induction false} CopyTableFrame(s: Phys, f: int, t: int, k: nat, j: int)
    requires PhysOk(s) && Apart(f, t) && k <= j < 1024
    ensures Read(CopyTableRun(s, f, t, k).mem, f + 4 * j) == Read(s.mem, f + 4 * j)
    ensures Read(CopyTableRun(s, f, t, k).mem, t + 4 * j) == Read(s.mem, t + 4 * j)
  {
    if k > 0 {
      CopyTableFrame(s, f, t, k - 1, j);
    }
  }

  /** Pass k itself. */
  lemma CopyTableRunAt(s: Phys, f: int, t: int, k: nat)
    requires PhysOk(s) && Apart(f, t) && k < 1024
    requires Read(CopyTableRun(s, f, t, k).mem, f + 4 * k) == Read(s.mem, f + 4 * k)
    requires Read(CopyTableRun(s, f, t, k).mem, t + 4 * k) == Read(s.mem, t + 4 * k)
    ensures var e := Read(s.mem, f + 4 * k); var s' := CopyTableRun(s, f, t, k + 1);
      Read(s'.mem, t + 4 * k) == (if Present(e) then ReadOnly(e) else Read(s.mem, t + 4 * k)) &&
      Read(s'.mem, f + 4 * k) == (if Present(e) && ReadOnly(e) > LOW_MEM then ReadOnly(e) else e)
  {
  }

  /** Later passes leave entry k alone. */
  lemma {:induction false} CopyTableLater(s: Phys, f: int, t: int, m: nat, n: nat, k: int)
    requires PhysOk(s) && Apart(f, t) && 0 <= k < m <= n <= 1024
    ensures Read(CopyTableRun(s, f, t, n).mem, f + 4 * k) == Read(CopyTableRun(s, f, t, m).mem, f + 4 * k)
    ensures Read(CopyTableRun(s, f, t, n).mem, t + 4 * k) == Read(CopyTableRun(s, f, t, m).mem, t + 4 * k)
    decreases n
  {
    if n > m {
      CopyTableLater(s, f, t, m, n - 1, k);
    }
  }

  /** The reference counts after the inner loop: each page gains one
      reference per present source entry pointing to it above LOW_MEM,
      modulo 256 as mem_map holds bytes. */
  lemma {:induction false} CopyTableCounts(s: Phys, f: int, t: int, n: nat, i: int)
    requires PhysOk(s) && Apart(f, t) && n <= 1024 && 0 <= i < PAGING_PAGES
    ensures CopyTableRun(s, f, t, n).counts[i] == (s.counts[i] + Refs(s.mem, f, n, i)) % 256
  {
    if n > 0 {
      CopyTableCounts(s, f, t, n - 1, i);
      CopyTableFrame(s, f, t, n - 1, n - 1);
      var s1 := CopyTableRun(s, f, t, n - 1);
      var e := Read(s.mem, f + 4 * (n - 1));
      var b := if Present(e) && ReadOnly(e) > LOW_MEM && MapNr(ReadOnly(e)) == i then 1 else 0;
      CopyEntryCount(s1, f + 4 * (n - 1), t + 4 * (n - 1), i);
      assert Refs(s.mem, f, n, i) == Refs(s.mem, f, n - 1, i) + b;
      ModStep(s.counts[i] + Refs(s.mem, f, n - 1, i), b);
    }
  }

  /** One pass adds one reference to page i when its source entry maps it. */
  lemma CopyEntryCount(s: Phys, src: int, dst: int, i: int)
    requires PhysOk(s) && 0 <= i < PAGING_PAGES
    ensures var e := Read(s.mem, src);
      CopyEntry(s, src, dst).counts[i] ==
        (s.counts[i] as int + if Present(e) && ReadOnly(e) > LOW_MEM && MapNr(ReadOnly(e)) == i then 1 else 0) % 256
  {
  }

  lemma ModStep(x: int, b: int)
    requires 0 <= b <= 1
    ensures (x % 256 + b) % 256 == (x + b) % 256
  {
  }

  /** What copy_page_tables promises at the directory level: misaligned
      addresses panic, and a destination entry that is already present
      panics before anything is copied. */
  lemma CopyTablesRefuses(s: Phys, from: Word, to: Word, size: int)
    requires PhysOk(s)
    ensures from % 0x40_0000 != 0 || to % 0x40_0000 != 0 ==> CopyTables(s, from, to, size).0.Halt?
    ensures from % 0x40_0000 == 0 && to % 0x40_0000 == 0 && Tables(size) > 0 && Present(Read(s.mem, DirSlot(to))) ==>
      CopyTables(s, from, to, size) == (Halt("copy_page_tables: already exist"), s)
  {
    if from % 0x40_0000 == 0 && to % 0x40_0000 == 0 && Tables(size) > 0 && Present(Read(s.mem, DirSlot(to))) {
      CopyDirRunFirst(s, from, DirSlot(from), DirSlot(to), Tables(size));
    }
  }

  lemma {:induction false} CopyDirRunFirst(s: Phys, from: int, fd: int, td: int, n: nat)
    requires PhysOk(s) && n > 0 && Present(Read(s.mem, td))
    ensures CopyDirRun(s, from, fd, td, n) == (Halt("copy_page_tables: already exist"), s)
  {
    if n > 1 {
      CopyDirRunFirst(s, from, fd, td, n - 1);
    }
  }

  /** p | 7 for a page address p: a present, writable user entry for p. */
  lemma EntryOf(p: int)
    requires p % PAGE == 0 && 0 <= p < MEM_END
    ensures Frame(p + 7) == p && Present(p + 7)
  {
    PageOffset(p, 7);
    PageEven(p);
  }

  lemma PageOffset(p: int, r: int)
    requires p % PAGE == 0 && 0 <= r < PAGE
    ensures (p + r) % PAGE == r
  {
  }

  lemma PageEven(p: int)
    requires p % PAGE == 0
    ensures (p + 7) % 2 == 1
  {
    var k := p / PAGE;
    assert p == 4096 * k;
    var m := 2048 * k + 3;
    assert p + 7 == 2 * m + 1;
    OddMod(m);
  }

  lemma OddMod(m: int)
    ensures (2 * m + 1) % 2 == 1
  {
  }

  /** One directory pass that copies: the new table is a page that was
      free, and the destination entry points to it with flags 7 (user,
      R/W, present). */
  lemma CopyDirMeans(s: Phys, from: int, fd: int, td: int)
    requires PhysOk(s) && !Present(Read(s.mem, td)) && Present(Read(s.mem, fd))
    requires CopyDir(s, from, fd, td).0 == Fine
    requires var f := Frame(Read(s.mem, fd)); !(f <= td < f + PAGE)
    requires var t := GetFree(s).1; !(t <= td < t + PAGE)
    ensures var t := GetFree(s).1; var s' := CopyDir(s, from, fd, td).1;
      t != 0 && s.counts[MapNr(t)] == 0 && Read(s'.mem, td) == t + 7 && Frame(t + 7) == t
  {
    var t := GetFree(s).1;
    GetFreeTakesHighest(s);
    EntryOf(t);
    var f := Frame(Read(s.mem, fd));
    var s2 := GetFree(s).0.(mem := GetFree(s).0.mem[td := t + 7]);
    CopyTableKeepsOthers(s2, f, t, CopyCount(from), td);
  }

  /** The inner loop writes only inside the two tables. */
  lemma {:induction false} CopyTableKeepsOthers(s: Phys, f: int, t: int, n: nat, a: int)
    requires PhysOk(s) && n <= 1024
    requires !(f <= a < f + PAGE) && !(t <= a < t + PAGE)
    ensures Read(CopyTableRun(s, f, t, n).mem, a) == Read(s.mem, a)
  {
    if n > 0 {
      CopyTableKeepsOthers(s, f, t, n - 1, a);
    }
  }

  /** One more pass of copy_page_tables' outer loop after k passes that
      went well. */
  lemma CopyDirRunNext(s: Phys, from: int, fd: int, td: int, k: nat, s1: Phys, r: (Outcome, Phys))
    requires PhysOk(s) && CopyDirRun(s, from, fd, td, k) == (Fine, s1)
    requires r == CopyDir(s1, from, fd + 4 * k, td + 4 * k)
    ensures CopyDirRun(s, from, fd, td, k + 1) == r
  {
  }

  lemma {:induction false} CopyDirRunStops(s: Phys, from: int, fd: int, td: int, n: nat, m: nat)
    requires PhysOk(s) && n <= m
    requires CopyDirRun(s, from, fd, td, n).0 != Fine
    ensures CopyDirRun(s, from, fd, td, m) == CopyDirRun(s, from, fd, td, n)
    decreases m
  {
    if m > n {
      CopyDirRunStops(s, from, fd, td, n, m - 1);
    }
  }

  // ---------------------------------------------------------------------
  // un_wp_page and try_to_share

  /** The page un_wp_page starts from is one that only this entry uses. */
  predicate SoleOwner(s: Phys, old_page: int)
    requires PhysOk(s) && old_page < MEM_END
  {
    old_page >= LOW_MEM && s.counts[MapNr(old_page)] == 1
  }

  /** The copying branch of un_wp_page for the entry at a, whose page is
      old_page: take a new page, drop a reference to the old one, point the
      entry at the new page with flags 7 and copy the old page into it. */
  function UnWpCopy(s: Phys, a: int, old_page: int): (r: (Outcome, Phys))
    requires PhysOk(s) && old_page < MEM_END
    ensures PhysOk(r.1)
  {
    var (s1, np) := GetFree(s);
    if np == 0 then (Oom, s1)
    else
      var c := if old_page >= LOW_MEM then Drop(s1.counts, MapNr(old_page)) else s1.counts;
      (Fine, Phys(c, CopyPage(s1.mem[a := np + 7], old_page, np)))
  }

  /** un_wp_page(table_entry) for the entry at a, whose page lies below
      16 MB. */
  function UnWp(s: Phys, a: int): (r: (Outcome, Phys))
    requires PhysOk(s) && Frame(Read(s.mem, a)) < MEM_END
    ensures PhysOk(r.1)
  {
    var e := Read(s.mem, a);
    if SoleOwner(s, Frame(e)) then (Fine, s.(mem := s.mem[a := Writable(e)]))
    else UnWpCopy(s, a, Frame(e))
  }

  /** un_wp_page on a page above LOW_MEM that only this entry references
      makes the entry writable in place and changes nothing else. */
  lemma UnWpInPlace(s: Phys, a: int)
    requires PhysOk(s) && Frame(Read(s.mem, a)) < MEM_END && SoleOwner(s, Frame(Read(s.mem, a)))
    ensures var (o, s') := UnWp(s, a);
      o == Fine && s'.counts == s.counts && Read(s'.mem, a) == Writable(Read(s.mem, a)) &&
      Frame(Read(s'.mem, a)) == Frame(Read(s.mem, a)) &&
      forall b :: b != a ==> Read(s'.mem, b) == Read(s.mem, b)
  {
  }

  /** Otherwise un_wp_page gives the entry a fresh page: one that was free,
      now counted once, mapped by the entry with flags 7 and holding a copy
      of the old page; the old page (above LOW_MEM) loses one reference. */
  lemma UnWpCopies(s: Phys, a: int, old_page: int)
    requires PhysOk(s) && 0 <= old_page < MEM_END && old_page % PAGE == 0
    requires UnWpCopy(s, a, old_page).0 == Fine
    ensures var s' := UnWpCopy(s, a, old_page).1; var np := GetFree(s).1;
      np != 0 && np != old_page && s.counts[MapNr(np)] == 0 ==>
      s'.counts[MapNr(np)] == 1 &&
      (old_page >= LOW_MEM ==> s'.counts[MapNr(old_page)] == (s.counts[MapNr(old_page)] as int + 255) % 256) &&
      (!(np <= a < np + PAGE) ==> Read(s'.mem, a) == np + 7) &&
      forall b :: np <= b < np + PAGE ==> Read(s'.mem, b) == Read(GetFree(s).0.mem[a := np + 7], b - np + old_page)
  {
    var (s1, np) := GetFree(s);
    var m1 := s1.mem[a := np + 7];
    var c := if old_page >= LOW_MEM then Drop(s1.counts, MapNr(old_page)) else s1.counts;
    assert UnWpCopy(s, a, old_page).1 == Phys(c, CopyPage(m1, old_page, np));
    UnWpCopyCounts(s, old_page);
    UnWpCopyMem(s, a, old_page);
  }

  /** The memory after un_wp_page's copy: the entry at a maps the new page
      with flags 7 (unless a lies inside it), and the new page holds the old
      one. */
  lemma UnWpCopyMem(s: Phys, a: int, old_page: int)
    requires PhysOk(s)
    ensures var (s1, np) := GetFree(s);
      var m1 := s1.mem[a := np + 7];
      (!(np <= a < np + PAGE) ==> Read(CopyPage(m1, old_page, np), a) == np + 7) &&
      forall b :: np <= b < np + PAGE ==> Read(CopyPage(m1, old_page, np), b) == Read(m1, b - np + old_page)
  {
    var (s1, np) := GetFree(s);
    var m1 := s1.mem[a := np + 7];
    CopyPageRead(m1, old_page, np, a);
    CopyPageReads(m1, old_page, np);
  }

  /** Every address of the destination page reads as its counterpart in the
      source page. */
  lemma CopyPageReads(mem: map<int, Word>, from: int, to: int)
    ensures forall b :: to <= b < to + PAGE ==> Read(CopyPage(mem, from, to), b) == Read(mem, b - to + from)
  {
    forall b | to <= b < to + PAGE
      ensures Read(CopyPage(mem, from, to), b) == Read(mem, b - to + from)
    {
      CopyPageRead(mem, from, to, b);
    }
  }

  /** The counts after un_wp_page's copy: the new page is counted once and
      the old one (above LOW_MEM) loses a reference. */
  lemma UnWpCopyCounts(s: Phys, old_page: int)
    requires PhysOk(s) && 0 <= old_page < MEM_END && old_page % PAGE == 0
    ensures var (s1, np) := GetFree(s);
      var c := if old_page >= LOW_MEM then Drop(s1.counts, MapNr(old_page)) else s1.counts;
      np != 0 && np != old_page ==>
      c[MapNr(np)] == 1 &&
      (old_page >= LOW_MEM ==> c[MapNr(old_page)] == (s.counts[MapNr(old_page)] as int + 255) % 256)
  {
    var (s1, np) := GetFree(s);
    GetFreeTakesHighest(s);
    if old_page >= LOW_MEM && np != 0 && np != old_page {
      MapNrApart(np, old_page);
    }
  }

  /** Two different pages above LOW_MEM have different mem_map slots. */
  lemma MapNrApart(x: int, y: int)
    requires LOW_MEM <= x && LOW_MEM <= y && x % PAGE == 0 && y % PAGE == 0 && x != y
    ensures MapNr(x) != MapNr(y)
  {
    assert x == PAGE * (x / 4096);
    assert y == PAGE * (y / 4096);
    assert x - LOW_MEM == PAGE * (x / 4096 - 256);
    assert y - LOW_MEM == PAGE * (y / 4096 - 256);
    assert MapNr(x) == x / 4096 - 256;
    assert MapNr(y) == y / 4096 - 256;
  }

  /** The page-table entry try_to_share would share: the address of the
      entry for address in p's space (whose code starts at pStart) when
      that space has a page table there and the entry maps a present,
      clean page in [LOW_MEM, high); -1 otherwise. */
  function Shareable(s: Phys, high: int, address: Word, pStart: Word): (r: int)
    ensures r >= 0 ==> var phys := Read(s.mem, r); Clean(phys) && LOW_MEM <= Frame(phys) < high
  {
    var from := Read(s.mem, DirSlot(address) + DirSlot(pStart));
    if !Present(from) then -1
    else
      var fromPage := Frame(from) + TabSlot(address);
      var phys := Read(s.mem, fromPage);
      if !Clean(phys) || Frame(phys) >= high || Frame(phys) < LOW_MEM then -1 else fromPage
  }

  /** The current task's page table for address, at directory entry toDir:
      the one present, or a fresh page installed with flags 7. The int is
      the table's address. */
  function ToTable(s: Phys, toDir: int): (r: (Outcome, Phys, int))
    requires PhysOk(s)
    ensures PhysOk(r.1) && (r.0 == Fine ==> r.2 == Frame(Read(r.1.mem, toDir)))
  {
    var to := Read(s.mem, toDir);
    if Present(to) then (Fine, s, Frame(to))
    else
      var (s1, t) := GetFree(s);
      if t == 0 then (Oom, s1, 0)
      else
        EntryOf(t);
        (Fine, s1.(mem := s1.mem[toDir := t + 7]), t)
  }

  /** The last step of try_to_share: write-protect the entry at fromPage,
      copy it to toPage and count the page phys (read before the page
      table was found) once more. */
  function ShareInto(s: Phys, fromPage: int, toPage: int, phys: int): (r: (Outcome, int, Phys))
    requires PhysOk(s)
    ensures PhysOk(r.2)
  {
    if Present(Read(s.mem, toPage)) then (Halt("try_to_share: to_page already exists"), 0, s)
    else
      var m1 := s.mem[fromPage := ReadOnly(Read(s.mem, fromPage))];
      (Fine, 1, Phys(Bump(s.counts, MapNr(phys)), m1[toPage := Read(m1, fromPage)]))
  }

  /** try_to_share(address, p) with p's start_code pStart and the current
      task's curStart. The int is the value returned (1 when shared). */
  function Share(s: Phys, high: int, address: Word, pStart: Word, curStart: Word): (r: (Outcome, int, Phys))
    requires PhysOk(s)
    ensures PhysOk(r.2)
  {
    var fromPage := Shareable(s, high, address, pStart);
    if fromPage < 0 then (Fine, 0, s)
    else
      var phys := Frame(Read(s.mem, fromPage));
      var (o, s1, t) := ToTable(s, DirSlot(address) + DirSlot(curStart));
      if o != Fine then (o, 0, s1) else ShareInto(s1, fromPage, t + TabSlot(address), phys)
  }

  /** The sharing step: when it shares, the two entries are equal and
      read-only, only those two words change, and the shared page gains
      one reference. */
  lemma ShareIntoMeans(s: Phys, fromPage: int, toPage: int, phys: int)
    requires PhysOk(s) && LOW_MEM <= phys < MEM_END
    ensures var (o, r, s') := ShareInto(s, fromPage, toPage, phys);
      (r == 1 <==> !Present(Read(s.mem, toPage))) &&
      (r == 1 ==>
        Read(s'.mem, toPage) == ReadOnly(Read(s.mem, fromPage)) &&
        (toPage != fromPage ==> Read(s'.mem, fromPage) == Read(s'.mem, toPage)) &&
        (forall a :: a != toPage && a != fromPage ==> Read(s'.mem, a) == Read(s.mem, a)) &&
        s'.counts == s.counts[MapNr(phys) := (s.counts[MapNr(phys)] as int + 1) % 256])
  {
    var i := (phys - LOW_MEM) / 4096;
    assert 4096 * i <= phys - LOW_MEM;
  }

  /** What try_to_share promises: it declines, changing nothing, unless p
      has a present, clean page in [LOW_MEM, HIGH_MEMORY) at address; when
      it shares, the current task's entry equals p's entry with the R/W bit
      cleared and that page gains one reference. */
  lemma ShareMeans(s: Phys, high: int, address: Word, pStart: Word, curStart: Word)
    requires PhysOk(s) && high <= MEM_END
    ensures var (o, r, s') := Share(s, high, address, pStart, curStart);
      var fromPage := Shareable(s, high, address, pStart);
      (fromPage < 0 ==> (o, r, s') == (Fine, 0, s)) &&
      (r == 1 ==>
        var (_, s1, t) := ToTable(s, DirSlot(address) + DirSlot(curStart));
        var phys := Frame(Read(s.mem, fromPage));
        fromPage >= 0 && Clean(Read(s.mem, fromPage)) && LOW_MEM <= phys < high &&
        Read(s'.mem, t + TabSlot(address)) == ReadOnly(Read(s1.mem, fromPage)) &&
        s'.counts == s1.counts[MapNr(phys) := (s1.counts[MapNr(phys)] as int + 1) % 256])
  {
    var fromPage := Shareable(s, high, address, pStart);
    if fromPage >= 0 {
      var phys := Frame(Read(s.mem, fromPage));
      var (o, s1, t) := ToTable(s, DirSlot(address) + DirSlot(curStart));
      if o == Fine {
        ShareIntoMeans(s1, fromPage, t + TabSlot(address), phys);
      }
    }
  }

  // ---------------------------------------------------------------------
  // The state

  /** mem_map, HIGH_MEMORY and physical memory. */
  class Mm {
    var memMap: array<Count>
    var highMemory: int
    var mem: map<int, Word>

    ghost predicate Valid()
      reads this
    {
      memMap.Length == PAGING_PAGES && 0 <= highMemory <= MEM_END
    }

    function Snap(): (s: Phys)
      reads this, memMap
      requires Valid()
      ensures PhysOk(s)
    {
      Phys(memMap[..], mem)
    }

    /** The static initial state: mem_map all 0, HIGH_MEMORY 0. */
    constructor (m: map<int, Word>)
      ensures Valid() && fresh(memMap) && highMemory == 0 && mem == m
      ensures forall i :: 0 <= i < PAGING_PAGES ==> memMap[i] == 0
    {
      memMap := new Count[PAGING_PAGES](_ => 0);
      highMemory := 0;
      mem := m;
    }

    /** mem_init(start_mem, end_mem). The pages it frees must lie in
        mem_map, which the caller's memory sizing guarantees. */
    method MemInit(start: int, end: int)
      requires Valid() && 0 <= end <= MEM_END && (Pages(start, end) > 0 ==> LOW_MEM <= start)
      modifies this`highMemory, memMap
      ensures Valid() && highMemory == end && memMap[..] == InitCounts(start, end)
    {
      highMemory := end;
      var i := 0;
      while i < PAGING_PAGES
        invariant 0 <= i <= PAGING_PAGES && highMemory == end
        invariant forall j :: 0 <= j < i ==> memMap[j] == USED
      {
        memMap[i] := USED;
        i := i + 1;
      }
      var n := Pages(start, end);
      var first := MapNr(start);
      if n > 0 {
        SpanFits(start, end);
        var left := n;
        i := first;
        while left > 0
          invariant 0 <= left <= n && i == first + n - left && highMemory == end
          invariant forall j :: 0 <= j < PAGING_PAGES ==> memMap[j] == if first <= j < i then 0 else USED
        {
          memMap[i] := 0;
          i := i + 1;
          left := left - 1;
        }
      }
      assert forall j :: 0 <= j < PAGING_PAGES ==> memMap[..][j] == InitCounts(start, end)[j];
    }

    /** get_free_page() */
    method GetFreePage() returns (addr: int)
      requires Valid()
      modifies this`mem, memMap
      ensures Valid() && (Snap(), addr) == GetFree(old(Snap()))
    {
      ghost var c := memMap[..];
      var i := PAGING_PAGES - 1;
      while i >= 0 && memMap[i] != 0
        invariant -1 <= i < PAGING_PAGES
        invariant HighestFree(c, PAGING_PAGES) == HighestFree(c, i + 1)
      {
        i := i - 1;
      }
      if i < 0 {
        return 0;
      }
      memMap[i] := 1;
      addr := PageAt(i);
      mem := Cleared(mem, addr);
      assert memMap[..] == c[i := 1];
    }

    /** free_page(addr) */
    method FreePage(addr: int) returns (o: Outcome)
      requires Valid()
      modifies memMap
      ensures Valid() && (o, Snap()) == FreePageSpec(old(Snap()), highMemory, addr)
    {
      if addr < LOW_MEM {
        return Fine;
      }
      if addr >= highMemory {
        return Halt("trying to free nonexistent page");
      }
      var i := (addr - LOW_MEM) / PAGE;
      if memMap[i] != 0 {
        memMap[i] := memMap[i] - 1;
        return Fine;
      }
      memMap[i] := 0;
      o := Halt("trying to free free page");
    }

    /** One pass of free_page_tables' inner loop, on the entry at a. */
    method FreeTableEntry(a: int) returns (o: Outcome)
      requires Valid()
      modifies this`mem, memMap
      ensures Valid() && (o, Snap()) == FreeEntry(old(Snap()), highMemory, a)
    {
      var e := Read(mem, a);
      if Present(e) {
        o := FreePage(Frame(e));
        if o != Fine {
          return;
        }
      }
      mem := mem[a := 0];
      o := Fine;
    }

    /** The inner loop of free_page_tables over the table at t. */
    method FreeTable(t: int) returns (o: Outcome)
      requires Valid()
      modifies this`mem, memMap
      ensures Valid() && (o, Snap()) == FreeTableRun(old(Snap()), highMemory, t, 1024)
    {
      var nr := 0;
      while nr < 1024
        invariant 0 <= nr <= 1024 && Valid()
        invariant (Fine, Snap()) == FreeTableRun(old(Snap()), highMemory, t, nr)
      {
        o := FreeTableEntry(t + 4 * nr);
        if o != Fine {
          FreeTableRunStops(old(Snap()), highMemory, t, nr + 1, 1024);
          return;
        }
        nr := nr + 1;
      }
      o := Fine;
    }

    /** One pass of the outer loop of free_page_tables, on the directory
        entry at d. */
    method FreeDirEntry(d: int) returns (o: Outcome)
      requires Valid()
      modifies this`mem, memMap
      ensures Valid() && (o, Snap()) == FreeDir(old(Snap()), highMemory, d)
    {
      if !Present(Read(mem, d)) {
        return Fine;
      }
      o := FreeTable(Frame(Read(mem, d)));
      if o != Fine {
        return;
      }
      o := FreePage(Frame(Read(mem, d)));
      if o != Fine {
        return;
      }
      mem := mem[d := 0];
    }

    /** free_page_tables(from, size) */
    method FreePageTables(from: Word, size: Word) returns (o: Outcome)
      requires Valid()
      modifies this`mem, memMap
      ensures Valid() && (o, Snap()) == FreeTables(old(Snap()), highMemory, from, size)
    {
      if from % 0x40_0000 != 0 {
        return Halt("free_page_tables called with wrong alignment");
      }
      if from == 0 {
        return Halt("Trying to free up swapper memory space");
      }
      o := FreeDirs(DirSlot(from), Tables(size));
    }

    /** Pass k of free_page_tables' outer loop, after k passes that went
        well from s0. */
    method FreeDirStep(d: int, k: nat, ghost s0: Phys) returns (o: Outcome)
      requires Valid() && PhysOk(s0) && (Fine, Snap()) == FreeDirRun(s0, highMemory, d, k)
      modifies this`mem, memMap
      ensures Valid() && (o, Snap()) == FreeDirRun(s0, highMemory, d, k + 1)
    {
      ghost var s1 := Snap();
      o := FreeDirEntry(d + 4 * k);
      FreeDirRunNext(s0, highMemory, d, k, s1, (o, Snap()));
    }

    /** The outer loop of free_page_tables over n directory entries from d. */
    method FreeDirs(d: int, n: nat) returns (o: Outcome)
      requires Valid()
      modifies this`mem, memMap
      ensures Valid() && (o, Snap()) == FreeDirRun(old(Snap()), highMemory, d, n)
    {
      ghost var s0 := Snap();
      var k := 0;
      while k < n
        invariant 0 <= k <= n && Valid()
        invariant (Fine, Snap()) == FreeDirRun(s0, highMemory, d, k)
      {
        o := FreeDirStep(d, k, s0);
        if o != Fine {
          FreeDirRunStops(s0, highMemory, d, k + 1, n);
          return;
        }
        k := k + 1;
      }
      o := Fine;
    }

    /** One pass of copy_page_tables' inner loop. */
    method CopyTableEntry(src: int, dst: int)
      requires Valid()
      modifies this`mem, memMap
      ensures Valid() && Snap() == CopyEntry(old(Snap()), src, dst)
    {
      var thisPage := Read(mem, src);
      if !Present(thisPage) {
        return;
      }
      thisPage := ReadOnly(thisPage);
      mem := mem[dst := thisPage];
      if thisPage > LOW_MEM {
        mem := mem[src := thisPage];
        var i := MapNr(thisPage);
        if i < PAGING_PAGES {
          memMap[i] := (memMap[i] as int + 1) % 256;
        }
      }
    }

    /** The inner loop of copy_page_tables: nr entries from table f to table t. */
    method CopyTable(f: int, t: int, nr: nat)
      requires Valid()
      modifies this`mem, memMap
      ensures Valid() && Snap() == CopyTableRun(old(Snap()), f, t, nr)
    {
      var k := 0;
      while k < nr
        invariant 0 <= k <= nr && Valid()
        invariant Snap() == CopyTableRun(old(Snap()), f, t, k)
      {
        CopyTableEntry(f + 4 * k, t + 4 * k);
        k := k + 1;
      }
    }

    /** One pass of the outer loop of copy_page_tables. */
    method CopyDirEntry(from: Word, fd: int, td: int) returns (o: Outcome)
      requires Valid()
      modifies this`mem, memMap
      ensures Valid() && (o, Snap()) == CopyDir(old(Snap()), from, fd, td)
    {
      if Present(Read(mem, td)) {
        return Halt("copy_page_tables: already exist");
      }
      if !Present(Read(mem, fd)) {
        return Fine;
      }
      var f := Frame(Read(mem, fd));
      var t := GetFreePage();
      if t == 0 {
        return Oom;
      }
      mem := mem[td := t + 7];
      CopyTable(f, t, if from == 0 then 0xA0 else 1024);
      o := Fine;
    }

    /** copy_page_tables(from, to, size); Oom stands for its -1. */
    method CopyPageTables(from: Word, to: Word, size: int) returns (o: Outcome)
      requires Valid()
      modifies this`mem, memMap
      ensures Valid() && (o, Snap()) == CopyTables(old(Snap()), from, to, size)
    {
      if from % 0x40_0000 != 0 || to % 0x40_0000 != 0 {
        return Halt("copy_page_tables called with wrong alignment");
      }
      o := CopyDirs(from, DirSlot(from), DirSlot(to), Tables(size));
    }

    /** Pass k of copy_page_tables' outer loop, after k passes that went
        well from s0. */
    method CopyDirStep(from: Word, fd: int, td: int, k: nat, ghost s0: Phys) returns (o: Outcome)
      requires Valid() && PhysOk(s0) && (Fine, Snap()) == CopyDirRun(s0, from, fd, td, k)
      modifies this`mem, memMap
      ensures Valid() && (o, Snap()) == CopyDirRun(s0, from, fd, td, k + 1)
    {
      ghost var s1 := Snap();
      o := CopyDirEntry(from, fd + 4 * k, td + 4 * k);
      CopyDirRunNext(s0, from, fd, td, k, s1, (o, Snap()));
    }

    /** The outer loop of copy_page_tables over n directory entries. */
    method CopyDirs(from: Word, fd: int, td: int, n: nat) returns (o: Outcome)
      requires Valid()
      modifies this`mem, memMap
      ensures Valid() && (o, Snap()) == CopyDirRun(old(Snap()), from, fd, td, n)
    {
      ghost var s0 := Snap();
      var k := 0;
      while k < n
        invariant 0 <= k <= n && Valid()
        invariant (Fine, Snap()) == CopyDirRun(s0, from, fd, td, k)
      {
        o := CopyDirStep(from, fd, td, k, s0);
        if o != Fine {
          CopyDirRunStops(s0, from, fd, td, k + 1, n);
          return;
        }
        k := k + 1;
      }
      o := Fine;
    }

    /** The copying branch of un_wp_page. */
    method UnWpCopyPage(a: int, oldPage: int) returns (o: Outcome)
      requires Valid() && oldPage < MEM_END
      modifies this`mem, memMap
      ensures Valid() && (o, Snap()) == UnWpCopy(old(Snap()), a, oldPage)
    {
      var newPage := GetFreePage();
      if newPage == 0 {
        return Oom;
      }
      if oldPage >= LOW_MEM {
        var i := MapNr(oldPage);
        memMap[i] := (memMap[i] as int + 255) % 256;
      }
      mem := mem[a := newPage + 7];
      mem := CopyPage(mem, oldPage, newPage);
      o := Fine;
    }

    /** un_wp_page(table_entry) for the entry at a. */
    method UnWpPage(a: int) returns (o: Outcome)
      requires Valid() && Frame(Read(mem, a)) < MEM_END
      modifies this`mem, memMap
      ensures Valid() && (o, Snap()) == UnWp(old(Snap()), a)
    {
      var oldPage := Frame(Read(mem, a));
      if oldPage >= LOW_MEM && memMap[MapNr(oldPage)] == 1 {
        mem := mem[a := Writable(Read(mem, a))];
        return Fine;
      }
      o := UnWpCopyPage(a, oldPage);
    }

    /** The current task's page table for the directory entry at toDir. */
    method TargetTable(toDir: int) returns (o: Outcome, t: int)
      requires Valid()
      modifies this`mem, memMap
      ensures Valid() && (o, Snap(), t) == ToTable(old(Snap()), toDir)
    {
      var to := Read(mem, toDir);
      if !Present(to) {
        to := GetFreePage();
        if to == 0 {
          return Oom, 0;
        }
        mem := mem[toDir := to + 7];
      }
      o, t := Fine, Frame(to);
    }

    /** try_to_share(address, p) with p's start_code pStart. */
    method TryToShare(address: Word, pStart: Word, curStart: Word) returns (o: Outcome, r: int)
      requires Valid()
      modifies this`mem, memMap
      ensures Valid() && (o, r, Snap()) == Share(old(Snap()), highMemory, address, pStart, curStart)
    {
      ghost var s0 := Snap();
      var from := Read(mem, DirSlot(address) + DirSlot(pStart));
      if !Present(from) {
        assert Shareable(s0, highMemory, address, pStart) == -1;
        return Fine, 0;
      }
      var fromPage := Frame(from) + TabSlot(address);
      var phys := Read(mem, fromPage);
      if !Clean(phys) || Frame(phys) >= highMemory || Frame(phys) < LOW_MEM {
        assert Shareable(s0, highMemory, address, pStart) == -1;
        return Fine, 0;
      }
      assert Shareable(s0, highMemory, address, pStart) == fromPage;
      var t;
      o, t := TargetTable(DirSlot(address) + DirSlot(curStart));
      if o != Fine {
        return o, 0;
      }
      ghost var s1 := Snap();
      assert ToTable(s0, DirSlot(address) + DirSlot(curStart)) == (Fine, s1, t);
      o, r := ShareAt(fromPage, t + TabSlot(address), Frame(phys));
    }

    /** The end of try_to_share: refuse an existing to_page, otherwise make
        the from entry read-only, copy it to to_page and count one more
        reference to the page at phys. */
    method ShareAt(fromPage: int, toPage: int, phys: int) returns (o: Outcome, r: int)
      requires Valid() && LOW_MEM <= phys
      modifies this`mem, memMap
      ensures Valid() && (o, r, Snap()) == ShareInto(old(Snap()), fromPage, toPage, phys)
    {
      if Present(Read(mem, toPage)) {
        return Halt("try_to_share: to_page already exists"), 0;
      }
      mem := mem[fromPage := ReadOnly(Read(mem, fromPage))];
      mem := mem[toPage := Read(mem, fromPage)];
      var i := MapNr(phys);
      if i < PAGING_PAGES {
        memMap[i] := (memMap[i] as int + 1) % 256;
      }
      o, r := Fine, 1;
    }
  }

  /** The pages mem_init frees lie inside mem_map. */
  lemma SpanFits(start: int, end: int)
    requires LOW_MEM <= start && end <= MEM_END && Pages(start, end) > 0
    ensures 0 <= MapNr(start) && MapNr(start) + Pages(start, end) <= PAGING_PAGES
  {
    var a, b := start - LOW_MEM, end - start;
    assert PAGE * (a / PAGE) <= a && PAGE * (b / PAGE) <= b;
    assert PAGE * (a / PAGE + b / PAGE) <= a + b < PAGING_PAGES * PAGE + 1;
  }
}
