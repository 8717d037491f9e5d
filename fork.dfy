/** kernel/fork.c: finding a pid and a task slot, the write check of a
    user area, and the copy of the current task into a new slot. The page
    get_free_page returns and the outcome of copy_page_tables are
    parameters; the file table and the inode table are the ones of
    Files and InodeTable. */
module Fork {
  import opened Util
  import opened Errno
  import opened FsDefs
  import opened Proc
  import opened Files
  import opened InodeTable

  /** The largest value of the long last_pid. */
  const MAX_PID: int := 0x7fff_ffff

  /** ++last_pid, which is set to 1 when the increment overflows. */
  function Bump(last: int): (r: int)
    requires 0 <= last <= MAX_PID
    ensures 1 <= r <= MAX_PID
  {
    if last == MAX_PID then 1 else last + 1
  }

  /** The j-th pid (j >= 1) find_empty_process tries when last_pid was s. */
  function Cand(s: int, j: int): (r: int)
    requires 0 <= s <= MAX_PID && j >= 1
    ensures 1 <= r <= MAX_PID
  {
    (s + j - 1) % MAX_PID + 1
  }

  lemma ModIsPid(x: int, q: int, r: int)
    requires x == MAX_PID * q + r && 0 <= r < MAX_PID
    ensures x % MAX_PID == r
  {
  }

  lemma ModStep(a: int)
    requires a >= 0
    ensures (a + 1) % MAX_PID == if a % MAX_PID == MAX_PID - 1 then 0 else a % MAX_PID + 1
  {
    var q, r := a / MAX_PID, a % MAX_PID;
    if r == MAX_PID - 1 {
      ModIsPid(a + 1, q + 1, 0);
    } else {
      ModIsPid(a + 1, q, r + 1);
    }
  }

  /** One more bump gives the next candidate. */
  lemma BumpCand(s: int, j: int)
    requires 0 <= s <= MAX_PID && j >= 1
    ensures Bump(Cand(s, j)) == Cand(s, j + 1)
  {
    ModStep(s + j - 1);
  }

  lemma BumpFirst(s: int)
    requires 0 <= s <= MAX_PID
    ensures Bump(s) == Cand(s, 1)
  {
    if s == MAX_PID {
      assert s % MAX_PID == 0;
    }
  }

  /** Fewer than MAX_PID bumps never come back to a pid already tried. */
  lemma CandDistinct(s: int, i: int, j: int)
    requires 0 <= s <= MAX_PID && 1 <= i < j <= i + 100
    ensures Cand(s, i) != Cand(s, j)
  {
    var a, d := s + i - 1, j - i;
    var q, r := a / MAX_PID, a % MAX_PID;
    if r + d < MAX_PID {
      ModIsPid(a + d, q, r + d);
    } else {
      ModIsPid(a + d, q + 1, r + d - MAX_PID);
    }
  }

  /** The pids of the tasks in task[0..m). */
  function PidsBelow(ts: seq<Option<Task>>, m: nat): (r: set<int>)
    requires m <= |ts|
    ensures |r| <= m
  {
    if m == 0 then {}
    else PidsBelow(ts, m - 1) + (if ts[m - 1].Some? then {ts[m - 1].value.ids.pid} else {})
  }

  lemma {:induction false} PidsBelowMeans(ts: seq<Option<Task>>, m: nat, p: int)
    requires m <= |ts|
    ensures p in PidsBelow(ts, m) <==> exists i :: 0 <= i < m && ts[i].Some? && ts[i].value.ids.pid == p
  {
    if m > 0 {
      PidsBelowMeans(ts, m - 1, p);
    }
  }

  /** The pids in use. */
  function Used(ts: seq<Option<Task>>): (r: set<int>)
    requires |ts| == NR_TASKS
  {
    PidsBelow(ts, NR_TASKS)
  }

  lemma {:induction false} DistinctCard(q: seq<int>)
    requires forall i, j :: 0 <= i < j < |q| ==> q[i] != q[j]
    ensures |set x | x in q| == |q|
  {
    if q != [] {
      var q' := q[..|q| - 1];
      DistinctCard(q');
      assert (set x | x in q) == (set x | x in q') + {q[|q| - 1]};
    }
  }

  lemma SubsetCard(a: set<int>, b: set<int>)
    requires a <= b
    ensures |a| <= |b|
  {
    assert b == a + (b - a);
    assert a * (b - a) == {};
  }

  /** With 64 tasks, one of the first 65 candidates is free. */
  lemma Pigeon(ts: seq<Option<Task>>, s: int)
    requires |ts| == NR_TASKS && 0 <= s <= MAX_PID
    ensures exists j :: 1 <= j <= 65 && Cand(s, j) !in Used(ts)
  {
    var q := seq(65, i requires 0 <= i < 65 => Cand(s, i + 1));
    forall i, j | 0 <= i < j < |q|
      ensures q[i] != q[j]
    {
      CandDistinct(s, i + 1, j + 1);
    }
    DistinctCard(q);
    if forall j :: 1 <= j <= 65 ==> Cand(s, j) in Used(ts) {
      assert forall x :: x in q ==> x in Used(ts);
      SubsetCard((set x | x in q), Used(ts));
      assert false;
    }
  }

  /** The offset of the first free candidate at or after offset j. */
  function FreshAt(ts: seq<Option<Task>>, s: int, j: int): (n: int)
    requires |ts| == NR_TASKS && 0 <= s <= MAX_PID && 1 <= j <= 65
    requires forall i :: 1 <= i < j ==> Cand(s, i) in Used(ts)
    ensures j <= n <= 65 && Cand(s, n) !in Used(ts)
    ensures forall i :: j <= i < n ==> Cand(s, i) in Used(ts)
    decreases 65 - j
  {
    if Cand(s, j) !in Used(ts) then j
    else if j == 65 then Pigeon(ts, s); assert false; 65
    else FreshAt(ts, s, j + 1)
  }

  /** The pid find_empty_process settles on. */
  function FreshPid(ts: seq<Option<Task>>, s: int): (r: int)
    requires |ts| == NR_TASKS && 0 <= s <= MAX_PID
  {
    Cand(s, FreshAt(ts, s, 1))
  }

  /** The new pid is in use by no task, and it is the first of the pids
      after last_pid (in the order that wraps to 1) for which that holds. */
  lemma FreshPidMeans(ts: seq<Option<Task>>, s: int)
    requires |ts| == NR_TASKS && 0 <= s <= MAX_PID
    ensures var p := FreshPid(ts, s);
      1 <= p <= MAX_PID &&
      (forall i :: 0 <= i < NR_TASKS && ts[i].Some? ==> ts[i].value.ids.pid != p) &&
      forall j :: 1 <= j < FreshAt(ts, s, 1) ==>
        exists i :: 0 <= i < NR_TASKS && ts[i].Some? && ts[i].value.ids.pid == Cand(s, j)
  {
    var n := FreshAt(ts, s, 1);
    PidsBelowMeans(ts, NR_TASKS, Cand(s, n));
    forall j | 1 <= j < n
      ensures exists i :: 0 <= i < NR_TASKS && ts[i].Some? && ts[i].value.ids.pid == Cand(s, j)
    {
      PidsBelowMeans(ts, NR_TASKS, Cand(s, j));
    }
  }

  /** The lowest slot at or above from whose task pointer is NULL, or
      NR_TASKS. */
  function FreeSlot(ts: seq<Option<Task>>, from: int): (r: int)
    requires |ts| == NR_TASKS && 0 <= from <= NR_TASKS
    ensures from <= r <= NR_TASKS
    ensures r < NR_TASKS ==> ts[r].None?
    ensures forall i :: from <= i < r ==> ts[i].Some?
    decreases NR_TASKS - from
  {
    if from == NR_TASKS then NR_TASKS
    else if ts[from].None? then from
    else FreeSlot(ts, from + 1)
  }

  /** The scan of task[] for a task with pid p. */
  method PidTaken(k: Kernel, p: int) returns (b: bool)
    requires k.Valid()
    ensures b == (p in Used(k.task))
  {
    var i := 0;
    while i < NR_TASKS && !(k.task[i].Some? && k.task[i].value.ids.pid == p)
      invariant 0 <= i <= NR_TASKS
      invariant forall j :: 0 <= j < i ==> !(k.task[j].Some? && k.task[j].value.ids.pid == p)
    {
      i := i + 1;
    }
    PidsBelowMeans(k.task, NR_TASKS, p);
    b := i < NR_TASKS;
  }

  /** find_empty_process(): last_pid moves on to FreshPid, then the first
      empty slot above task 0 is returned, or -EAGAIN. */
  method FindEmptyProcess(k: Kernel) returns (r: int)
    requires k.Valid()
    modifies k`lastPid
    ensures k.Valid()
    ensures k.lastPid == FreshPid(k.task, old(k.lastPid))
    ensures var i := FreeSlot(k.task, 1); r == if i < NR_TASKS then i else -EAGAIN
  {
    ghost var s := k.lastPid;
    BumpFirst(s);
    k.lastPid := Bump(k.lastPid);
    ghost var n := 1;
    var taken := PidTaken(k, k.lastPid);
    while taken
      invariant k.Valid() && 1 <= n <= 65 && k.lastPid == Cand(s, n)
      invariant forall i :: 1 <= i < n ==> Cand(s, i) in Used(k.task)
      invariant FreshAt(k.task, s, n) == FreshAt(k.task, s, 1)
      invariant taken == (Cand(s, n) in Used(k.task))
      decreases 65 - n
    {
      BumpCand(s, n);
      k.lastPid := Bump(k.lastPid);
      n := n + 1;
      taken := PidTaken(k, k.lastPid);
    }
    var i := 1;
    while i < NR_TASKS && k.task[i].Some?
      invariant 1 <= i <= NR_TASKS
      invariant FreeSlot(k.task, i) == FreeSlot(k.task, 1)
    {
      i := i + 1;
    }
    r := if i < NR_TASKS then i else -EAGAIN;
  }

  /** n page addresses 4096 apart from p, as 32-bit words. */
  function PagesFrom(p: int, n: nat): (r: seq<Word>)
  {
    seq(n, i => ToWord(p + PAGE_SIZE * i))
  }

  lemma PagesFromSnoc(p: int, n: nat)
    ensures PagesFrom(p, n + 1) == PagesFrom(p, n) + [ToWord(p + PAGE_SIZE * n)]
  {
  }

  /** The first linear address of each page verify_area(addr, size) has
      write_verify check, for a data segment based at base: from the page
      of addr, one page per 4096 bytes of size + addr % 4096. */
  function VerifiedPages(addr: Word, size: int, base: Word): (r: seq<Word>)
  {
    var total := size + addr % PAGE_SIZE;
    PagesFrom(addr - addr % PAGE_SIZE + base, if total > 0 then (total + PAGE_SIZE - 1) / PAGE_SIZE else 0)
  }

  lemma ModIs(x: int, q: int, r: int)
    requires x == PAGE_SIZE * q + r && 0 <= r < PAGE_SIZE
    ensures x / PAGE_SIZE == q && x % PAGE_SIZE == r
  {
  }

  lemma WordAdd(x: int, c: int)
    ensures ToWord(ToWord(x) + c) == ToWord(x + c)
  {
    var q := x / WORD;
    assert x == WORD * q + ToWord(x);
    assert ToWord(x) + c == x + c - WORD * q;
  }

  /** Each byte of [addr, addr + size) lies in one of the pages checked
      (the page index counted from addr's page), the first page is addr's
      and the last is the page of the last byte. */
  lemma VerifiedPagesCover(addr: Word, size: int, base: Word, a: int)
    requires size > 0 && addr <= a < addr + size
    ensures var r := VerifiedPages(addr, size, base);
      var p0 := addr - addr % PAGE_SIZE;
      var i := (a - p0) / PAGE_SIZE;
      0 <= i < |r| && r[i] == ToWord(a - a % PAGE_SIZE + base) &&
      r[0] == ToWord(p0 + base) &&
      r[|r| - 1] == ToWord(addr + size - 1 - (addr + size - 1) % PAGE_SIZE + base)
  {
    var p0 := addr - addr % PAGE_SIZE;
    var total := size + addr % PAGE_SIZE;
    ModIs(addr, addr / PAGE_SIZE, addr % PAGE_SIZE);
    var i := (a - p0) / PAGE_SIZE;
    ModIs(a - p0, i, (a - p0) % PAGE_SIZE);
    ModIs(a, addr / PAGE_SIZE + i, (a - p0) % PAGE_SIZE);
    var last := addr + size - 1;
    var il := (last - p0) / PAGE_SIZE;
    ModIs(last - p0, il, (last - p0) % PAGE_SIZE);
    ModIs(last, addr / PAGE_SIZE + il, (last - p0) % PAGE_SIZE);
    ModIs(total + PAGE_SIZE - 1, il + 1, (last - p0) % PAGE_SIZE);
  }

  /** verify_area(addr, size), with the base of the data segment as a
      parameter; the page addresses passed to write_verify are returned. */
  method VerifyArea(addr: Word, size: int, base: Word) returns (pages: seq<Word>)
    ensures pages == VerifiedPages(addr, size, base)
  {
    var start: int := addr;
    var sz := size + start % PAGE_SIZE;
    start := start - start % PAGE_SIZE;
    ghost var p0 := start + base;
    start := ToWord(start + base);
    ghost var total := sz;
    ghost var n: nat := 0;
    pages := [];
    while sz > 0
      invariant sz == total - PAGE_SIZE * n && (n == 0 || sz > -PAGE_SIZE)
      invariant start == ToWord(p0 + PAGE_SIZE * n) && pages == PagesFrom(p0, n)
    {
      PagesFromSnoc(p0, n);
      WordAdd(p0 + PAGE_SIZE * n, PAGE_SIZE);
      sz := sz - PAGE_SIZE;
      pages := pages + [start];
      start := ToWord(start + PAGE_SIZE);
      n := n + 1;
    }
    if total > 0 {
      ModIs(total + PAGE_SIZE - 1, n, total - 1 - PAGE_SIZE * (n - 1));
    }
  }

  /** The registers sys_fork pushed, which copy_process receives. */
  datatype Frame = Frame(ebp: int, edi: int, esi: int, gs: int, ebx: int, ecx: int, edx: int,
                         fs: int, es: int, ds: int, eip: int, cs: int, eflags: int, esp: int, ss: int)

  /** _LDT(nr): the selector of task nr's LDT descriptor. */
  function LdtSelector(nr: int): int
  {
    nr * 16 + 5 * 8
  }

  /** The task copy_process builds in the page at `page` for slot nr, before
      copy_mem: the current task with the fields fork resets. */
  function Child(cur: Task, nr: int, pid: int, jiffies: int, page: int, f: Frame): (r: Task)
  {
    cur.(state := TASK_UNINTERRUPTIBLE, counter := cur.priority, alarm := 0,
         sigs := cur.sigs.(signal := 0),
         ids := cur.ids.(pid := pid, father := cur.ids.pid, leader := 0),
         times := Times(0, 0, 0, 0, jiffies),
         tss := Tss(0, PAGE_SIZE + page, 0x10, f.eip, f.eflags, 0, f.ecx, f.edx, f.ebx, f.esp, f.ebp, f.esi, f.edi,
                    f.es % 0x1_0000, f.cs % 0x1_0000, f.ss % 0x1_0000, f.ds % 0x1_0000, f.fs % 0x1_0000,
                    f.gs % 0x1_0000, LdtSelector(nr), 0x8000_0000))
  }

  /** The child inherits everything else of its parent: its credentials,
      signal actions and mask, files, memory layout and LDT, priority,
      process group and session; it starts with a full time slice, no
      pending signal, no alarm and no times, and sees 0 as fork's result. */
  lemma ChildMeans(cur: Task, nr: int, pid: int, jiffies: int, page: int, f: Frame)
    requires TaskOk(cur)
    ensures var r := Child(cur, nr, pid, jiffies, page, f);
      TaskOk(r) && r.cred == cur.cred && r.files == cur.files && r.mem == cur.mem && r.ldt == cur.ldt &&
      r.sigs.action == cur.sigs.action && r.sigs.blocked == cur.sigs.blocked && r.sigs.signal == 0 &&
      r.priority == cur.priority && r.counter == cur.priority && r.exitCode == cur.exitCode &&
      r.ids.pgrp == cur.ids.pgrp && r.ids.session == cur.ids.session &&
      r.ids.pid == pid && r.ids.father == cur.ids.pid && r.ids.leader == 0 && r.alarm == 0 &&
      r.times.utime + r.times.stime + r.times.cutime + r.times.cstime == 0 && r.times.startTime == jiffies &&
      r.tss.eax == 0 && r.tss.eip == f.eip && r.tss.esp == f.esp &&
      0 <= r.tss.cs < 0x1_0000 && (0 <= f.cs < 0x1_0000 ==> r.tss.cs == f.cs)
  {
  }

  /** copy_mem(nr, p) for the current task cur: it panics on split code and
      data bases or a data limit below the code limit, and otherwise bases
      both segments of p at nr * 64 MB; copied says whether
      copy_page_tables succeeded (-ENOMEM otherwise). */
  function CopyMem(cur: Task, p: Task, nr: int, copied: bool): (r: (Status, int, Task))
    requires 0 <= nr < NR_TASKS
  {
    if cur.ldt.dataBase != cur.ldt.codeBase then (Panic("We don't support separate I&D"), 0, p)
    else if cur.ldt.dataLimit < cur.ldt.codeLimit then (Panic("Bad data_limit"), 0, p)
    else
      var base := nr * 0x400_0000;
      (Done, if copied then 0 else -ENOMEM,
       p.(mem := p.mem.(startCode := base), ldt := p.ldt.(codeBase := base, dataBase := base)))
  }

  /** The bases are those of task nr's 64 MB slice of the linear space, so
      two tasks never share one; nothing else of the task changes. */
  lemma CopyMemMeans(cur: Task, p: Task, nr: int, copied: bool, other: int)
    requires 0 <= nr < NR_TASKS && 0 <= other < NR_TASKS && other != nr
    ensures var (st, e, q) := CopyMem(cur, p, nr, copied);
      (st.Panic? <==> cur.ldt.dataBase != cur.ldt.codeBase || cur.ldt.dataLimit < cur.ldt.codeLimit) &&
      (st == Done ==> (
         (e == 0 <==> copied) && (e != 0 ==> e == -ENOMEM) &&
         q.ldt.codeBase == q.ldt.dataBase == q.mem.startCode == nr * 0x400_0000 &&
         (q.mem.startCode + 0x400_0000 <= other * 0x400_0000 || other * 0x400_0000 + 0x400_0000 <= q.mem.startCode) &&
         q == p.(mem := q.mem, ldt := q.ldt) && q.mem == p.mem.(startCode := q.mem.startCode) &&
         q.ldt == p.ldt.(codeBase := q.ldt.codeBase, dataBase := q.ldt.dataBase)))
  {
  }

  /** The file table after fork: each entry's f_count rises by the number
      of the child's descriptors naming it. */
  function Shared(table: seq<File>, filp: seq<int>): (r: seq<File>)
    requires |table| == NR_FILE
  {
    seq(NR_FILE, f requires 0 <= f < NR_FILE => table[f].(count := table[f].count + multiset(filp)[f]))
  }

  /** Only the counts change, entries no descriptor names keep theirs, and
      a file named by n descriptors gains n references. */
  lemma SharedMeans(table: seq<File>, filp: seq<int>, f: int)
    requires |table| == NR_FILE && 0 <= f < NR_FILE
    ensures var r := Shared(table, filp);
      |r| == NR_FILE && r[f] == table[f].(count := r[f].count) &&
      (f !in filp ==> r[f].count == table[f].count) &&
      r[f].count == table[f].count + |set fd | 0 <= fd < |filp| && filp[fd] == f|
  {
    CountRefs(filp, f);
  }

  lemma {:induction false} CountRefs(filp: seq<int>, f: int)
    ensures multiset(filp)[f] == |set fd | 0 <= fd < |filp| && filp[fd] == f|
  {
    if filp != [] {
      var q := filp[..|filp| - 1];
      CountRefs(q, f);
      assert filp == q + [filp[|filp| - 1]];
      var s := set fd | 0 <= fd < |filp| && filp[fd] == f;
      var s' := set fd | 0 <= fd < |q| && q[fd] == f;
      if filp[|filp| - 1] == f {
        assert s == s' + {|filp| - 1};
      } else {
        assert s == s';
      }
    }
  }

  /** The loop over the child's descriptors raising f_count. */
  method ShareFiles(d: Descriptors, filp: seq<int>)
    requires d.Valid() && |filp| == NR_OPEN
    requires forall fd :: 0 <= fd < NR_OPEN ==> filp[fd] == NULL || 0 <= filp[fd] < NR_FILE
    modifies d`table
    ensures d.Valid() && d.table == Shared(old(d.table), filp)
  {
    var i := 0;
    while i < NR_OPEN
      invariant 0 <= i <= NR_OPEN && d.Valid()
      invariant d.table == Shared(old(d.table), filp[..i])
    {
      assert filp[..i + 1] == filp[..i] + [filp[i]];
      var f := filp[i];
      if f != NULL {
        d.table := d.table[f := d.table[f].(count := d.table[f].count + 1)];
      }
      i := i + 1;
    }
    assert filp[..NR_OPEN] == filp;
  }

  /** i_count++ on the inode at index x of the inode table, when x is not
      NULL. */
  function Held(inodes: seq<MInode>, x: int): (r: seq<MInode>)
    requires |inodes| == NR_INODE && -1 <= x < NR_INODE
  {
    if x < 0 then inodes else inodes[x := inodes[x].(count := inodes[x].count + 1)]
  }

  method Hold(it: Table, x: int)
    requires it.Valid() && -1 <= x < NR_INODE
    modifies it`inodes
    ensures it.Valid() && it.inodes == Held(old(it.inodes), x)
  {
    if x >= 0 {
      it.inodes := it.inodes[x := it.inodes[x].(count := it.inodes[x].count + 1)];
    }
  }

  /** The descriptors and directories of a task name real table entries. */
  predicate RefsOk(t: Task)
    requires TaskOk(t)
  {
    (forall fd :: 0 <= fd < NR_OPEN ==> t.files.filp[fd] == NULL || 0 <= t.files.filp[fd] < NR_FILE) &&
    -1 <= t.files.pwd < NR_INODE && -1 <= t.files.root < NR_INODE && -1 <= t.files.executable < NR_INODE
  }

  /** copy_process(nr, ...) with page the result of get_free_page (0 when
      there is none) and copied the outcome of copy_page_tables. */
  method CopyProcess(k: Kernel, d: Descriptors, it: Table, nr: int, page: int, copied: bool, f: Frame)
    returns (st: Status, r: int)
    requires k.Valid() && d.Valid() && it.Valid() && 1 <= nr < NR_TASKS && k.task[nr].None?
    requires RefsOk(k.Cur())
    modifies k`task, d`table, it`inodes
    ensures k.Valid() && d.Valid() && it.Valid()
    ensures var cur := old(k.Cur());
      var (st', e, c) := CopyMem(cur, Child(cur, nr, k.lastPid, k.jiffies, page, f), nr, copied);
      (page == 0 ==> st == Done && r == -EAGAIN && k.task == old(k.task) && d.table == old(d.table) &&
                     it.inodes == old(it.inodes)) &&
      (page != 0 && st'.Panic? ==> st == st') &&
      (page != 0 && st' == Done && !copied ==> (st == Done && r == -EAGAIN && k.task == old(k.task)[nr := None] &&
                     d.table == old(d.table) && it.inodes == old(it.inodes))) &&
      (page != 0 && st' == Done && copied ==> (st == Done && r == k.lastPid &&
         k.task == old(k.task)[nr := Some(c.(state := TASK_RUNNING))] &&
         d.table == Shared(old(d.table), cur.files.filp) &&
         it.inodes == Held(Held(Held(old(it.inodes), cur.files.pwd), cur.files.root), cur.files.executable)))
  {
    if page == 0 {
      return Done, -EAGAIN;
    }
    var cur := k.Cur();
    var p := Child(cur, nr, k.lastPid, k.jiffies, page, f);
    ChildMeans(cur, nr, k.lastPid, k.jiffies, page, f);
    k.task := k.task[nr := Some(p)];
    var (st', e, c) := CopyMem(cur, p, nr, copied);
    st, p := st', c;
    if st.Panic? {
      return st, 0;
    }
    if e != 0 {
      k.task := k.task[nr := None];
      return Done, -EAGAIN;
    }
    k.task := k.task[nr := Some(p)];
    ShareFiles(d, cur.files.filp);
    Hold(it, cur.files.pwd);
    Hold(it, cur.files.root);
    Hold(it, cur.files.executable);
    k.task := k.task[nr := Some(p.(state := TASK_RUNNING))];
    r := k.lastPid;
  }
}
